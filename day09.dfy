/** Day 9: a disk map of digits expanded into blocks (file ids and free
    blocks), compacted either block by block or whole file by whole file,
    then summarised by a checksum. */
module Day09 {
  import opened Common

  /** The block value of a free block. */
  const Free: int := -1

  const Zero: int := '0' as int

  /** The block value written for the digit at index i: file i / 2 for an
      even index, free space for an odd one. */
  function BlockValue(i: nat): int
  {
    if i % 2 == 0 then i / 2 else Free
  }

  function Repeat(v: int, n: nat): (r: seq<int>)
    ensures |r| == n && forall k :: 0 <= k < n ==> r[k] == v
  {
    seq(n, _ => v)
  }

  ghost predicate AllDigitsAtLeastZero(input: seq<Byte>)
  {
    forall i :: 0 <= i < |input| ==> input[i] >= Zero
  }

  /** The disk map expanded into blocks. */
  function Expand(input: seq<Byte>): seq<int>
    requires AllDigitsAtLeastZero(input)
  {
    if |input| == 0 then []
    else Expand(input[..|input| - 1]) + Repeat(BlockValue(|input| - 1), input[|input| - 1] - Zero)
  }

  /** `parse`: a byte below '0' makes `b - b'0'` underflow, which panics (None). */
  method Parse(input: seq<Byte>) returns (result: Option<seq<int>>)
    ensures result.None? <==> !AllDigitsAtLeastZero(input)
    ensures result.Some? ==> AllDigitsAtLeastZero(input) && result.value == Expand(input)
  {
    var blocks: seq<int> := [];
    var i := 0;
    while i < |input|
      invariant 0 <= i <= |input|
      invariant AllDigitsAtLeastZero(input[..i])
      invariant blocks == Expand(input[..i])
    {
      if input[i] < Zero {
        return None;
      }
      assert input[..i + 1][..i] == input[..i];
      blocks := blocks + Repeat(BlockValue(i), input[i] - Zero);
      i := i + 1;
    }
    assert input[..i] == input;
    return Some(blocks);
  }

  /** How many times file j occurs after expansion: the digit at index 2j. */
  lemma {:induction false} ExpandFileCounts(input: seq<Byte>, j: int)
    requires AllDigitsAtLeastZero(input) && j != Free
    ensures multiset(Expand(input))[j] == if 0 <= j && 2 * j < |input| then input[2 * j] - Zero else 0
  {
    if |input| > 0 {
      var prefix := input[..|input| - 1];
      assert AllDigitsAtLeastZero(prefix);
      ExpandFileCounts(prefix, j);
      var tail := Repeat(BlockValue(|input| - 1), input[|input| - 1] - Zero);
      assert multiset(Expand(input)) == multiset(Expand(prefix)) + multiset(tail);
      if BlockValue(|input| - 1) == j {
        assert tail == seq(|tail|, _ => j);
        MultisetOfConstant(j, |tail|);
      } else {
        assert j !in tail;
      }
    }
  }

  lemma {:induction false} MultisetOfConstant(v: int, n: nat)
    ensures multiset(seq(n, _ => v))[v] == n
  {
    if n > 0 {
      MultisetOfConstant(v, n - 1);
      assert seq(n, _ => v) == seq(n - 1, _ => v) + [v];
    }
  }

  ghost predicate FilesAscending(e: seq<int>)
  {
    forall p, q :: 0 <= p < q < |e| && e[p] != Free && e[q] != Free ==> e[p] <= e[q]
  }

  /** After expansion the files appear in increasing id order. */
  lemma {:induction false} ExpandFilesAscending(input: seq<Byte>)
    requires AllDigitsAtLeastZero(input)
    ensures FilesAscending(Expand(input))
    ensures forall k :: 0 <= k < |Expand(input)| ==>
              Expand(input)[k] == Free || 0 <= 2 * Expand(input)[k] < |input|
  {
    if |input| > 0 {
      var last := |input| - 1;
      var prefix := input[..last];
      assert AllDigitsAtLeastZero(prefix);
      ExpandFilesAscending(prefix);
      var head := Expand(prefix);
      var tail := Repeat(BlockValue(last), input[last] - Zero);
      var e := head + tail;
      assert e == Expand(input);
      assert FilesAscending(head);
      forall p, q | 0 <= p < q < |e| && e[p] != Free && e[q] != Free
        ensures e[p] <= e[q]
      {
        if q < |head| {
          assert e[p] == head[p] && e[q] == head[q];
        } else if p >= |head| {
          assert e[p] == tail[p - |head|] && e[q] == tail[q - |head|];
        } else {
          assert e[p] == head[p] && 2 * head[p] < last;
          assert e[q] == tail[q - |head|] == BlockValue(last);
          assert last % 2 == 0;
        }
      }
    }
  }

  /** The layout part one leaves: a permutation of the blocks with every
      free block after every file block, where a file block that stays a
      file block keeps its id. */
  ghost predicate Compacted(blocks: seq<int>, r: seq<int>)
  {
    |r| == |blocks| &&
    multiset(r) == multiset(blocks) &&
    (forall i, j :: 0 <= i < j < |r| && r[i] == Free ==> r[j] == Free) &&
    (forall i :: 0 <= i < |r| && blocks[i] != Free && r[i] != Free ==> r[i] == blocks[i])
  }

  /** The index of the leftmost free block, or |r| when there is none. */
  function FirstFree(r: seq<int>): (k: nat)
    ensures k <= |r| && (k < |r| ==> r[k] == Free)
    ensures forall i :: 0 <= i < k ==> r[i] != Free
  {
    if |r| == 0 then 0
    else if r[0] == Free then 0
    else 1 + FirstFree(r[1..])
  }

  /** The index of the rightmost file block, or -1 when there is none. */
  function LastFile(r: seq<int>): (k: int)
    ensures -1 <= k < |r| && (k >= 0 ==> r[k] != Free)
    ensures forall i :: k < i < |r| ==> r[i] == Free
  {
    if |r| == 0 then -1
    else if r[|r| - 1] != Free then |r| - 1
    else LastFile(r[..|r| - 1])
  }

  /** The value the two-cursor loop computes, stated without cursors: while
      the leftmost free block lies left of the rightmost file block, the two
      trade places. */
  function Compact(r: seq<int>): seq<int>
    decreases LastFile(r) - FirstFree(r)
  {
    var l, k := FirstFree(r), LastFile(r);
    if l < k then
      var next := r[l := r[k]][k := r[l]];
      SwapMovesEnds(r, l, k);
      Compact(next)
    else r
  }

  /** After the trade the leftmost free block lies further right and the
      rightmost file block further left. */
  lemma SwapMovesEnds(r: seq<int>, l: nat, k: int)
    requires l == FirstFree(r) && k == LastFile(r) && l < k
    ensures FirstFree(r[l := r[k]][k := r[l]]) > l
    ensures LastFile(r[l := r[k]][k := r[l]]) < k
  {
  }

  /** Blocks right of the rightmost file block stay free. */
  lemma {:induction false} CompactKeepsFreeTail(r: seq<int>)
    ensures |Compact(r)| == |r|
    ensures forall i :: LastFile(r) < i < |r| ==> Compact(r)[i] == Free
    decreases LastFile(r) - FirstFree(r)
  {
    var l, k := FirstFree(r), LastFile(r);
    if l < k {
      var next := r[l := r[k]][k := r[l]];
      SwapMovesEnds(r, l, k);
      CompactKeepsFreeTail(next);
    }
  }

  /** The reference compaction leaves the layout part one promises. */
  lemma {:induction false} CompactIsCompacted(r: seq<int>)
    ensures Compacted(r, Compact(r))
    decreases LastFile(r) - FirstFree(r)
  {
    var l, k := FirstFree(r), LastFile(r);
    if l < k {
      var next := r[l := r[k]][k := r[l]];
      SwapMovesEnds(r, l, k);
      CompactIsCompacted(next);
      CompactKeepsFreeTail(next);
      SwapKeepsMultiset(r, l, k);
      var c := Compact(next);
      assert Compact(r) == c;
      forall i | 0 <= i < |c| && r[i] != Free && c[i] != Free
        ensures c[i] == r[i]
      {
        if i != k {
          assert next[i] == r[i];
        }
      }
    }
  }

  /** In the loop's state, the leftmost free block is at `left` and the
      rightmost file block at `right`, so the swap is one step of Compact. */
  lemma CompactSwapStep(r: seq<int>, blocks: seq<int>, left: nat, right: nat)
    requires Compacting(r, blocks, left, right) && left < right
    requires r[left] == Free && r[right] != Free
    ensures Compact(r[left := r[right]][right := r[left]]) == Compact(r)
  {
  }

  /** With every free block after every file block there is nothing to move. */
  lemma CompactDone(r: seq<int>)
    requires forall i, j :: 0 <= i < j < |r| && r[i] == Free ==> r[j] == Free
    ensures Compact(r) == r
  {
  }

  /** The disk [0, ., ., 1, 2] compacts to [0, 2, 1, ., .]: the last file
      block fills the first gap, not the lower id. */
  lemma CompactExample()
    ensures Compact([0, Free, Free, 1, 2]) == [0, 2, 1, Free, Free]
    ensures ChecksumOf(Compact([0, Free, Free, 1, 2])) == 4
  {
    ExampleFirstTrade();
    ExampleSecondTrade();
    ExampleCompacted();
    ExampleChecksum();
  }

  lemma ExampleFirstTrade()
    ensures Compact([0, Free, Free, 1, 2]) == Compact([0, 2, Free, 1, Free])
  {
    var r := [0, Free, Free, 1, 2];
    assert r[1..] == [Free, Free, 1, 2];
    assert FirstFree(r) == 1 && LastFile(r) == 4;
    assert r[1 := r[4]][4 := r[1]] == [0, 2, Free, 1, Free];
  }

  lemma ExampleSecondTrade()
    ensures Compact([0, 2, Free, 1, Free]) == Compact([0, 2, 1, Free, Free])
  {
    var r1 := [0, 2, Free, 1, Free];
    assert r1[1..] == [2, Free, 1, Free] && r1[1..][1..] == [Free, 1, Free];
    assert r1[..4] == [0, 2, Free, 1];
    assert FirstFree(r1) == 2 && LastFile(r1) == 3;
    assert r1[2 := r1[3]][3 := r1[2]] == [0, 2, 1, Free, Free];
  }

  lemma ExampleCompacted()
    ensures Compact([0, 2, 1, Free, Free]) == [0, 2, 1, Free, Free]
  {
    var r2 := [0, 2, 1, Free, Free];
    assert r2[1..] == [2, 1, Free, Free] && r2[1..][1..] == [1, Free, Free] && r2[1..][1..][1..] == [Free, Free];
    assert FirstFree([Free, Free]) == 0;
    assert FirstFree([1, Free, Free]) == 1;
    assert FirstFree([2, 1, Free, Free]) == 2;
    assert r2[..4] == [0, 2, 1, Free] && r2[..4][..3] == [0, 2, 1];
    assert LastFile([0, 2, 1]) == 2;
    assert LastFile([0, 2, 1, Free]) == 2;
  }

  lemma ExampleChecksum()
    ensures ChecksumOf([0, 2, 1, Free, Free]) == 4
  {
    var r2 := [0, 2, 1, Free, Free];
    assert r2[..4] == [0, 2, 1, Free] && r2[..4][..3] == [0, 2, 1];
    assert r2[..4][..3][..2] == [0, 2] && r2[..4][..3][..2][..1] == [0] && [0][..0] == [];
    assert ChecksumOf([0]) == 0;
    assert ChecksumOf([0, 2]) == 2;
    assert ChecksumOf([0, 2, 1]) == 4;
    assert ChecksumOf([0, 2, 1, Free]) == 4;
  }

  /** Part one: move the rightmost file block into the leftmost free block
      until no free block lies left of a file block. The empty disk makes
      `len() - 1` underflow, which panics (None). */
  method MoveFilesToRight(blocks: seq<int>) returns (result: Option<seq<int>>)
    ensures result.None? <==> |blocks| == 0
    ensures result.Some? ==> result.value == Compact(blocks)
  {
    if |blocks| == 0 {
      return None;
    }
    var a := new int[|blocks|](i requires 0 <= i < |blocks| => blocks[i]);
    assert a[..] == blocks;
    var left := 0;
    var right := a.Length - 1;
    while left < right
      invariant a.Length == |blocks| && Compacting(a[..], blocks, left, right)
      invariant Compact(a[..]) == Compact(blocks)
      decreases right - left
    {
      var l := SkipFiles(a, left, right);
      var r := SkipFree(a, l, right);
      SkipKeeps(a[..], blocks, left, right, l, r);
      left, right := l, r;
      if left < right {
        ghost var before := a[..];
        a[left], a[right] := a[right], a[left];
        assert a[..] == before[left := before[right]][right := before[left]];
        SwapKeeps(before, blocks, left, right);
        CompactSwapStep(before, blocks, left, right);
        left := left + 1;
        right := right - 1;
      }
    }
    CursorsMet(a[..], blocks, left, right);
    CompactDone(a[..]);
    return Some(a[..]);
  }

  /** The first inner loop: `left` past the file blocks. */
  method SkipFiles(a: array<int>, left: nat, right: nat) returns (l: nat)
    requires left <= right < a.Length
    ensures left <= l <= right
    ensures forall i :: left <= i < l ==> a[i] != Free
    ensures l < right ==> a[l] == Free
  {
    l := left;
    while l < right && a[l] != Free
      invariant left <= l <= right
      invariant forall i :: left <= i < l ==> a[i] != Free
    {
      l := l + 1;
    }
  }

  /** The second inner loop: `right` back past the free blocks. */
  method SkipFree(a: array<int>, left: nat, right: nat) returns (r: nat)
    requires left <= right < a.Length
    ensures left <= r <= right
    ensures forall i :: r < i <= right ==> a[i] == Free
    ensures left < r ==> a[r] != Free
  {
    r := right;
    while left < r && a[r] == Free
      invariant left <= r <= right
      invariant forall i :: r < i <= right ==> a[i] == Free
    {
      r := r - 1;
    }
  }

  /** The invariant of the loop with two cursors: blocks left of `left` are
      files, blocks right of `right` are free, blocks between are untouched,
      and every file block left of `left` that was a file block there holds
      its own id. */
  ghost predicate Compacting(r: seq<int>, blocks: seq<int>, left: int, right: int)
  {
    |r| == |blocks| && 0 <= left <= |r| && 0 <= right < |r| && left <= right + 1 &&
    multiset(r) == multiset(blocks) &&
    (forall i :: 0 <= i < left ==> r[i] != Free) &&
    (forall i :: right < i < |r| ==> r[i] == Free) &&
    (forall i :: left <= i <= right ==> r[i] == blocks[i]) &&
    (forall i :: 0 <= i < left && blocks[i] != Free ==> r[i] == blocks[i])
  }

  /** Moving the cursors past file blocks and free blocks keeps the invariant. */
  lemma SkipKeeps(r: seq<int>, blocks: seq<int>, left: nat, right: nat, l: nat, rr: nat)
    requires Compacting(r, blocks, left, right) && left <= l <= rr <= right
    requires forall i :: left <= i < l ==> r[i] != Free
    requires forall i :: rr < i <= right ==> r[i] == Free
    ensures Compacting(r, blocks, l, rr)
  {
  }

  /** Swapping a free block at `left` with a file block at `right`. */
  lemma SwapKeeps(r: seq<int>, blocks: seq<int>, left: nat, right: nat)
    requires Compacting(r, blocks, left, right) && left < right
    requires r[left] == Free && r[right] != Free
    ensures Compacting(r[left := r[right]][right := r[left]], blocks, left + 1, right - 1)
  {
    SwapKeepsMultiset(r, left, right);
  }

  lemma SwapKeepsMultiset(s: seq<int>, i: nat, j: nat)
    requires i < |s| && j < |s|
    ensures multiset(s[i := s[j]][j := s[i]]) == multiset(s)
  {
  }

  /** When the two cursors meet, the block-by-block compaction is done. */
  lemma CursorsMet(r: seq<int>, blocks: seq<int>, left: nat, right: nat)
    requires Compacting(r, blocks, left, right) && left >= right
    ensures forall i, j :: 0 <= i < j < |r| && r[i] == Free ==> r[j] == Free
    ensures forall i :: 0 <= i < |r| && blocks[i] != Free && r[i] != Free ==> r[i] == blocks[i]
  {
  }

  /** Sum of position times id over the file blocks of the first n blocks. */
  function ChecksumOf(blocks: seq<int>): int
  {
    if |blocks| == 0 then 0
    else
      var last := |blocks| - 1;
      ChecksumOf(blocks[..last]) + (if blocks[last] != Free then last * blocks[last] else 0)
  }

  method Checksum(blocks: seq<int>) returns (sum: int)
    ensures sum == ChecksumOf(blocks)
  {
    sum := 0;
    var pos := 0;
    while pos < |blocks|
      invariant 0 <= pos <= |blocks|
      invariant sum == ChecksumOf(blocks[..pos])
    {
      assert blocks[..pos + 1][..pos] == blocks[..pos];
      if blocks[pos] != Free {
        sum := sum + pos * blocks[pos];
      }
      pos := pos + 1;
    }
    assert blocks[..pos] == blocks;
  }

  /** Free blocks at the end do not change the checksum, and the checksum of
      a disk of file ids (no other negative values) is never negative. */
  lemma {:induction false} ChecksumIgnoresFreeTail(blocks: seq<int>, n: nat)
    ensures ChecksumOf(blocks + Repeat(Free, n)) == ChecksumOf(blocks)
  {
    if n > 0 {
      var longer := blocks + Repeat(Free, n);
      assert longer[..|longer| - 1] == blocks + Repeat(Free, n - 1);
      assert longer[|longer| - 1] == Free;
      ChecksumIgnoresFreeTail(blocks, n - 1);
    } else {
      assert blocks + Repeat(Free, n) == blocks;
    }
  }

  lemma {:induction false} ChecksumNonNegative(blocks: seq<int>)
    requires forall i :: 0 <= i < |blocks| ==> blocks[i] >= Free
    ensures ChecksumOf(blocks) >= 0
  {
    if |blocks| > 0 {
      ChecksumNonNegative(blocks[..|blocks| - 1]);
    }
  }

  // ----- Part two: whole files into the earliest gap to their left -----

  ghost predicate StrictlyIncreasing(ps: seq<nat>)
  {
    forall i, j :: 0 <= i < j < |ps| ==> ps[i] < ps[j]
  }

  /** The ascending positions of `id` among the first n blocks. */
  function PositionsIn(blocks: seq<int>, id: int, n: nat): (ps: seq<nat>)
    requires n <= |blocks|
    ensures forall k :: 0 <= k < |ps| ==> ps[k] < n && blocks[ps[k]] == id
    ensures forall p :: 0 <= p < n && blocks[p] == id ==> p in ps
    ensures StrictlyIncreasing(ps)
  {
    if n == 0 then []
    else PositionsIn(blocks, id, n - 1) + (if blocks[n - 1] == id then [n - 1] else [])
  }

  /** The largest file id among the first n blocks, or 0. */
  function MaxIdIn(blocks: seq<int>, n: nat): (m: nat)
    requires n <= |blocks|
  {
    if n == 0 then 0
    else if blocks[n - 1] >= 0 then Max(MaxIdIn(blocks, n - 1), blocks[n - 1])
    else MaxIdIn(blocks, n - 1)
  }

  /** MaxIdIn bounds every block and is 0 or the id of one of them. */
  lemma {:induction false} MaxIdInIsLargest(blocks: seq<int>, n: nat)
    requires n <= |blocks|
    ensures forall p :: 0 <= p < n ==> blocks[p] <= MaxIdIn(blocks, n)
    ensures MaxIdIn(blocks, n) == 0 || exists p :: 0 <= p < n && blocks[p] == MaxIdIn(blocks, n)
  {
    if n > 0 {
      MaxIdInIsLargest(blocks, n - 1);
    }
  }

  ghost predicate AllFree(s: seq<int>, start: nat, size: nat)
    requires start + size <= |s|
  {
    forall k :: start <= k < start + size ==> s[k] == Free
  }

  /** The least start at or after `from` of `size` free blocks ending by `limit`. */
  function FirstFit(s: seq<int>, size: nat, limit: nat, from: nat): (r: Option<nat>)
    requires limit <= |s|
    ensures r.Some? ==>
              from <= r.value && r.value + size <= limit && AllFree(s, r.value, size) &&
              forall g :: from <= g < r.value ==> !AllFree(s, g, size)
    ensures r.None? ==> forall g :: from <= g && g + size <= limit ==> !AllFree(s, g, size)
    decreases limit - from
  {
    if from + size > limit then None
    else if forall k :: from <= k < from + size ==> s[k] == Free then Some(from)
    else FirstFit(s, size, limit, from + 1)
  }

  /** Where file blocks `ps` may be written to `start..start + |ps|`: inside the
      disk, increasing, and all to the right of the target run. */
  ghost predicate Placeable(s: seq<int>, start: nat, ps: seq<nat>)
  {
    start + |ps| <= |s| && StrictlyIncreasing(ps) &&
    (forall k :: 0 <= k < |ps| ==> start + |ps| <= ps[k] < |s|)
  }

  /** The batch update: for each offset, write the id at `start + offset` and
      free the block at `ps[offset]`. */
  function MoveBlocks(s: seq<int>, id: int, start: nat, ps: seq<nat>): (r: seq<int>)
    requires Placeable(s, start, ps)
    ensures |r| == |s|
    decreases |ps|
  {
    if |ps| == 0 then s
    else MoveBlocks(s[start := id][ps[0] := Free], id, start + 1, ps[1..])
  }

  /** What the batch update leaves: the id over the whole target run, free
      blocks where the file was, and every other block as it was. */
  lemma {:induction false} MoveBlocksEffect(s: seq<int>, id: int, start: nat, ps: seq<nat>)
    requires Placeable(s, start, ps)
    ensures forall i :: start <= i < start + |ps| ==> MoveBlocks(s, id, start, ps)[i] == id
    ensures forall k :: 0 <= k < |ps| ==> MoveBlocks(s, id, start, ps)[ps[k]] == Free
    ensures forall i :: 0 <= i < |s| && !(start <= i < start + |ps|) && i !in ps ==> MoveBlocks(s, id, start, ps)[i] == s[i]
    decreases |ps|
  {
    if |ps| > 0 {
      var s' := s[start := id][ps[0] := Free];
      var rest := ps[1..];
      MoveBlocksStep(s, id, start, ps);
      MoveBlocksEffect(s', id, start + 1, rest);
      var r := MoveBlocks(s, id, start, ps);
      assert r == MoveBlocks(s', id, start + 1, rest);
      assert ps[0] >= start + |ps|;
      assert start !in rest by {
        forall k | 0 <= k < |rest|
          ensures rest[k] != start
        {
          assert rest[k] == ps[k + 1];
        }
      }
      assert ps[0] !in rest by {
        forall k | 0 <= k < |rest|
          ensures rest[k] != ps[0]
        {
          assert rest[k] == ps[k + 1];
        }
      }
      forall k | 0 <= k < |ps|
        ensures r[ps[k]] == Free
      {
        if k > 0 {
          assert ps[k] == rest[k - 1];
        }
      }
      forall i | 0 <= i < |s| && !(start <= i < start + |ps|) && i !in ps
        ensures r[i] == s[i]
      {
        forall k | 0 <= k < |rest|
          ensures rest[k] != i
        {
          assert rest[k] == ps[k + 1];
        }
      }
    }
  }

  lemma MoveBlocksStep(s: seq<int>, id: int, start: nat, ps: seq<nat>)
    requires Placeable(s, start, ps) && |ps| > 0
    ensures Placeable(s[start := id][ps[0] := Free], start + 1, ps[1..])
    ensures MoveBlocks(s, id, start, ps) == MoveBlocks(s[start := id][ps[0] := Free], id, start + 1, ps[1..])
  {
  }

  /** One file id: skipped when absent or already at block 0, otherwise moved
      into the first fitting run of free blocks left of its first block. */
  function ProcessFile(blocks: seq<int>, s: seq<int>, id: int): (r: seq<int>)
    requires |s| == |blocks|
    ensures |r| == |s|
  {
    var ps := PositionsIn(blocks, id, |blocks|);
    if |ps| == 0 || ps[0] == 0 then s
    else
      match FirstFit(s, |ps|, ps[0], 0)
      case None => s
      case Some(g) => MoveBlocks(s, id, g, ps)
  }

  lemma ProcessFileSteps(blocks: seq<int>, s: seq<int>, id: int, ps: seq<nat>, gap: Option<nat>, r: seq<int>)
    requires |s| == |blocks| && ps == PositionsIn(blocks, id, |blocks|) && |ps| > 0 && ps[0] > 0
    requires gap == FirstFit(s, |ps|, ps[0], 0)
    requires gap.None? ==> r == s
    requires gap.Some? ==> Placeable(s, gap.value, ps) && r == MoveBlocks(s, id, gap.value, ps)
    ensures r == ProcessFile(blocks, s, id)
  {
  }

  /** Files id, id - 1, ..., 0 in turn. */
  function CompactFrom(blocks: seq<int>, s: seq<int>, id: int): (r: seq<int>)
    requires |s| == |blocks|
    ensures |r| == |s|
    decreases id + 1
  {
    if id < 0 then s else CompactFrom(blocks, ProcessFile(blocks, s, id), id - 1)
  }

  /** The part-two layout, from the largest file id down. */
  function MoveWholeFiles(blocks: seq<int>): seq<int>
  {
    CompactFrom(blocks, blocks, MaxIdIn(blocks, |blocks|))
  }

  /** The scan for a gap: a run of `size` free blocks that ends before `limit`. */
  method FindGap(a: array<int>, size: nat, limit: nat) returns (start: Option<nat>)
    requires size > 0 && limit <= a.Length
    ensures start == FirstFit(a[..], size, limit, 0)
  {
    var gapStart: Option<nat> := None;
    var run := 0;
    var pos := 0;
    while pos < limit
      invariant 0 <= run <= pos <= limit && run < size
      invariant forall k :: pos - run <= k < pos ==> a[k] == Free
      invariant pos - run == 0 || a[pos - run - 1] != Free
      invariant gapStart == if run > 0 then Some(pos - run) else None
      invariant forall g: nat :: g + size <= pos ==> !AllFree(a[..], g, size)
    {
      if a[pos] == Free {
        if gapStart.None? {
          gapStart := Some(pos);
        }
        run := run + 1;
        if run >= size {
          break;
        }
        forall g: nat | g + size == pos + 1
          ensures !AllFree(a[..], g, size)
        {
          assert a[..][pos - run] != Free;
        }
      } else {
        forall g: nat | g + size == pos + 1
          ensures !AllFree(a[..], g, size)
        {
          assert a[..][pos] != Free;
        }
        gapStart := None;
        run := 0;
      }
      pos := pos + 1;
    }
    if gapStart.Some? && run >= size {
      start := gapStart;
    } else {
      start := None;
    }
    FirstFitUnique(a[..], size, limit, start);
  }

  /** FirstFit is the only least fitting start. */
  lemma FirstFitUnique(s: seq<int>, size: nat, limit: nat, r: Option<nat>)
    requires limit <= |s|
    requires r.Some? ==>
               r.value + size <= limit && AllFree(s, r.value, size) &&
               forall g: nat :: g < r.value ==> !AllFree(s, g, size)
    requires r.None? ==> forall g: nat :: g + size <= limit ==> !AllFree(s, g, size)
    ensures r == FirstFit(s, size, limit, 0)
  {
  }

  /** The batch move of one file's blocks into the run at `start`. */
  method MoveFile(a: array<int>, id: int, start: nat, positions: seq<nat>)
    requires Placeable(a[..], start, positions)
    modifies a
    ensures a[..] == MoveBlocks(old(a[..]), id, start, positions)
  {
    var offset := 0;
    while offset < |positions|
      invariant 0 <= offset <= |positions|
      invariant Placeable(a[..], start + offset, positions[offset..])
      invariant MoveBlocks(a[..], id, start + offset, positions[offset..])
                == MoveBlocks(old(a[..]), id, start, positions)
    {
      ghost var before := a[..];
      var target := positions[offset];
      a[start + offset] := id;
      a[target] := Free;
      assert a[..] == before[start + offset := id][target := Free];
      MoveFileStep(before, a[..], id, start, positions, offset);
      offset := offset + 1;
    }
  }

  /** One iteration of the move loop, on values. */
  lemma MoveFileStep(before: seq<int>, after: seq<int>, id: int, start: nat, positions: seq<nat>, offset: nat)
    requires offset < |positions| && Placeable(before, start + offset, positions[offset..])
    requires after == before[start + offset := id][positions[offset] := Free]
    ensures Placeable(after, start + offset + 1, positions[offset + 1..])
    ensures MoveBlocks(after, id, start + offset + 1, positions[offset + 1..]) ==
            MoveBlocks(before, id, start + offset, positions[offset..])
  {
    var rest := positions[offset..];
    assert rest[0] == positions[offset] && rest[1..] == positions[offset + 1..];
    MoveBlocksStep(before, id, start + offset, rest);
  }

  /** fp holds, for every id, its positions among the first pos blocks, fc
      their numbers, and m the largest id among those blocks. */
  ghost predicate Gathered(blocks: seq<int>, pos: nat, fp: seq<seq<nat>>, fc: seq<nat>, m: int)
    requires pos <= |blocks|
  {
    |fp| == |blocks| && |fc| == |blocks| && m == MaxIdIn(blocks, pos) &&
    forall j :: 0 <= j < |blocks| ==> fp[j] == PositionsIn(blocks, j, pos) && fc[j] == |fp[j]|
  }

  /** One more file block extends the positions of its own id only, and
      raises the largest id to it when it is larger. */
  lemma GatherStep(blocks: seq<int>, pos: nat, fp: seq<seq<nat>>, fc: seq<nat>, m: int)
    requires pos < |blocks| && Gathered(blocks, pos, fp, fc, m) && 0 <= blocks[pos] < |blocks|
    ensures Gathered(blocks, pos + 1, fp[blocks[pos] := fp[blocks[pos]] + [pos]], fc[blocks[pos] := fc[blocks[pos]] + 1],
                     if blocks[pos] > m then blocks[pos] else m)
  {
  }

  /** A free block changes nothing gathered. */
  lemma GatherSkip(blocks: seq<int>, pos: nat, fp: seq<seq<nat>>, fc: seq<nat>, m: int)
    requires pos < |blocks| && Gathered(blocks, pos, fp, fc, m) && blocks[pos] < 0
    ensures Gathered(blocks, pos + 1, fp, fc, m)
  {
  }

  /** The single pass recording, per file id, its block count and ascending
      positions, and the largest id. `ok` is false where a file id at or
      beyond the number of blocks indexes past `file_counts` (a panic). */
  method GatherFiles(blocks: seq<int>)
    returns (ok: bool, fileCounts: seq<nat>, filePositions: seq<seq<nat>>, maxFileId: int)
    ensures ok <==> forall q :: 0 <= q < |blocks| ==> blocks[q] < |blocks|
    ensures ok ==>
              |fileCounts| == |blocks| && |filePositions| == |blocks| &&
              maxFileId == MaxIdIn(blocks, |blocks|) &&
              forall j :: 0 <= j < |blocks| ==>
                filePositions[j] == PositionsIn(blocks, j, |blocks|) && fileCounts[j] == |filePositions[j]|
  {
    var n := |blocks|;
    fileCounts := seq(n, _ => 0);
    filePositions := seq(n, _ => []);
    maxFileId := 0;
    var pos := 0;
    while pos < n
      invariant 0 <= pos <= n && Gathered(blocks, pos, filePositions, fileCounts, maxFileId)
      invariant forall q :: 0 <= q < pos ==> blocks[q] < n
    {
      var block := blocks[pos];
      if block >= 0 {
        if block >= n {
          return false, fileCounts, filePositions, maxFileId;
        }
        GatherStep(blocks, pos, filePositions, fileCounts, maxFileId);
        fileCounts := fileCounts[block := fileCounts[block] + 1];
        filePositions := filePositions[block := filePositions[block] + [pos]];
        if block > maxFileId {
          maxFileId := block;
        }
      } else {
        GatherSkip(blocks, pos, filePositions, fileCounts, maxFileId);
      }
      pos := pos + 1;
    }
    ok := true;
  }

  /** Part two's layout. A file id at or beyond the number of blocks, or an
      empty disk, indexes past `file_counts` and panics (None). */
  method MoveFilesToEarliestGaps(blocks: seq<int>) returns (result: Option<seq<int>>)
    ensures result.None? <==> |blocks| == 0 || exists p :: 0 <= p < |blocks| && blocks[p] >= |blocks|
    ensures result.Some? ==> result.value == MoveWholeFiles(blocks)
  {
    var n := |blocks|;
    var a := new int[n](i requires 0 <= i < n => blocks[i]);
    var ok, fileCounts, filePositions, maxFileId := GatherFiles(blocks);
    if !ok || n == 0 {
      return None;
    }
    assert a[..] == blocks;
    MaxIdInIsLargest(blocks, n);
    var fileId := maxFileId;
    while fileId >= 0
      invariant -1 <= fileId <= maxFileId < n
      invariant a.Length == n
      invariant CompactFrom(blocks, a[..], fileId) == MoveWholeFiles(blocks)
      decreases fileId + 1
    {
      MoveOneFile(a, blocks, fileId, fileCounts[fileId], filePositions[fileId]);
      fileId := fileId - 1;
    }
    return Some(a[..]);
  }

  /** One iteration of the loop over file ids, from the recorded count and
      positions of `fileId`. */
  method MoveOneFile(a: array<int>, blocks: seq<int>, fileId: nat, fileSize: nat, positions: seq<nat>)
    requires a.Length == |blocks| && fileId < |blocks|
    requires positions == PositionsIn(blocks, fileId, |blocks|) && fileSize == |positions|
    modifies a
    ensures a[..] == ProcessFile(blocks, old(a[..]), fileId)
  {
    ghost var before := a[..];
    if fileSize == 0 || |positions| == 0 || positions[0] == 0 {
      return;
    }
    var gapStart := FindGap(a, fileSize, positions[0]);
    if gapStart.Some? {
      assert Placeable(before, gapStart.value, positions);
      MoveFile(a, fileId, gapStart.value, positions);
    }
    ProcessFileSteps(blocks, before, fileId, positions, gapStart, a[..]);
  }

  // ----- What part two keeps -----

  /** Before file id is processed, every block of files 0..id still holds its file. */
  ghost predicate Unmoved(blocks: seq<int>, s: seq<int>, id: int)
  {
    |s| == |blocks| &&
    forall p :: 0 <= p < |s| && 0 <= blocks[p] <= id ==> s[p] == blocks[p]
  }

  lemma {:induction false} MoveBlocksMultiset(s: seq<int>, id: int, start: nat, ps: seq<nat>)
    requires Placeable(s, start, ps) && id != Free
    requires AllFree(s, start, |ps|)
    requires forall k :: 0 <= k < |ps| ==> s[ps[k]] == id
    ensures multiset(MoveBlocks(s, id, start, ps)) == multiset(s)
    decreases |ps|
  {
    if |ps| > 0 {
      var s' := s[start := id][ps[0] := Free];
      MoveOneBlock(s, id, start, ps);
      MoveBlocksMultiset(s', id, start + 1, ps[1..]);
    }
  }

  /** Moving the first block into the free run: the multiset is kept and
      the rest of the move stays possible. */
  lemma MoveOneBlock(s: seq<int>, id: int, start: nat, ps: seq<nat>)
    requires Placeable(s, start, ps) && id != Free && |ps| > 0
    requires AllFree(s, start, |ps|)
    requires forall k :: 0 <= k < |ps| ==> s[ps[k]] == id
    ensures multiset(s[start := id][ps[0] := Free]) == multiset(s)
    ensures Placeable(s[start := id][ps[0] := Free], start + 1, ps[1..])
    ensures AllFree(s[start := id][ps[0] := Free], start + 1, |ps| - 1)
    ensures forall k :: 0 <= k < |ps| - 1 ==> s[start := id][ps[0] := Free][ps[1..][k]] == id
  {
    var s' := s[start := id][ps[0] := Free];
    assert s[start] == Free && s[ps[0]] == id;
    forall k | 0 <= k < |ps| - 1
      ensures s'[ps[1..][k]] == id
    {
      assert ps[1..][k] == ps[k + 1] && ps[k + 1] > ps[0];
    }
  }

  lemma ProcessFileKeeps(blocks: seq<int>, s: seq<int>, id: int)
    requires id >= 0 && Unmoved(blocks, s, id)
    ensures Unmoved(blocks, ProcessFile(blocks, s, id), id - 1)
    ensures multiset(ProcessFile(blocks, s, id)) == multiset(s)
  {
    var ps := PositionsIn(blocks, id, |blocks|);
    if |ps| > 0 && ps[0] > 0 {
      match FirstFit(s, |ps|, ps[0], 0)
      case None =>
      case Some(g) =>
        assert Placeable(s, g, ps);
        MoveBlocksMultiset(s, id, g, ps);
        MoveBlocksEffect(s, id, g, ps);
    }
  }

  lemma {:induction false} CompactFromKeeps(blocks: seq<int>, s: seq<int>, id: int)
    requires Unmoved(blocks, s, id)
    ensures multiset(CompactFrom(blocks, s, id)) == multiset(s)
    decreases id + 1
  {
    if id >= 0 {
      ProcessFileKeeps(blocks, s, id);
      CompactFromKeeps(blocks, ProcessFile(blocks, s, id), id - 1);
    }
  }

  /** Part two only rearranges blocks: the same ids and free blocks, as many of each. */
  lemma MoveWholeFilesPermutes(blocks: seq<int>)
    ensures |MoveWholeFiles(blocks)| == |blocks|
    ensures multiset(MoveWholeFiles(blocks)) == multiset(blocks)
  {
    CompactFromKeeps(blocks, blocks, MaxIdIn(blocks, |blocks|));
  }

  /** Parts one and two: the checksum after compaction; None where the
      source panics. */
  method PartOne(input: seq<Byte>) returns (answer: Option<int>)
    ensures answer.Some? <==> AllDigitsAtLeastZero(input) && |Expand(input)| > 0
    ensures answer.Some? ==> answer.value == ChecksumOf(Compact(Expand(input)))
  {
    var blocks := Parse(input);
    if blocks.None? {
      return None;
    }
    var moved := MoveFilesToRight(blocks.value);
    if moved.None? {
      return None;
    }
    var sum := Checksum(moved.value);
    return Some(sum);
  }

  method PartTwo(input: seq<Byte>) returns (answer: Option<int>)
    ensures AllDigitsAtLeastZero(input) && |Expand(input)| > 0 &&
            (forall p :: 0 <= p < |Expand(input)| ==> Expand(input)[p] < |Expand(input)|) ==>
              answer == Some(ChecksumOf(MoveWholeFiles(Expand(input))))
    ensures !AllDigitsAtLeastZero(input) ==> answer.None?
  {
    var blocks := Parse(input);
    if blocks.None? {
      return None;
    }
    var moved := MoveFilesToEarliestGaps(blocks.value);
    if moved.None? {
      return None;
    }
    var sum := Checksum(moved.value);
    return Some(sum);
  }
}
