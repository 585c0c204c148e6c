/** Day 22: monkey-market secrets. Each buyer's secret number evolves by three
    mix-and-prune stages; a price is the last decimal digit of a secret, and a
    pattern is four consecutive price changes. The first time a pattern shows
    up for a buyer, that buyer sells at the price that ends the pattern. */
module Day22 {
  import opened Common

  /** Pruning keeps a secret below 2^24. */
  const Modulus: nat := 16777216
  /** Secrets below 2^58 can be multiplied by 64 without leaving `u64`. */
  const InputLimit: nat := 0x400_0000_0000_0000
  const U64Limit: nat := 0x1_0000_0000_0000_0000
  /** Secrets generated per buyer in both parts. */
  const Steps: nat := 2000

  /** "Mix" the operand into the secret with exclusive-or, then "prune". */
  function MixPrune(secret: nat, operand: nat): (r: nat)
    ensures r < Modulus
  {
    XorNonNegative(secret, operand);
    Xor(secret, operand) % Modulus
  }

  /** `next_secret`: multiply by 64, divide by 32, multiply by 2048, mixing
      and pruning after each. */
  function NextSecret(secret: nat): (r: nat)
    requires secret < InputLimit
    ensures r < Modulus
  {
    var a := MixPrune(secret, secret * 64);
    var b := MixPrune(a, a / 32);
    MixPrune(b, b * 2048)
  }

  lemma ModulusIsPow()
    ensures Pow(2, 24) == Modulus
  {
    assert Pow(2, 8) == 256;
    PowAdd(2, 8, 8);
    PowAdd(2, 16, 8);
  }

  /** No stage overflows `u64`: the first multiply stays in range for inputs
      below 2^58, and the later stages only see values below 2^24, where the
      division stage does not even need its prune. */
  lemma StagesFitU64(secret: nat)
    requires secret < InputLimit
    ensures secret * 64 < U64Limit
    ensures var a := MixPrune(secret, secret * 64);
      Xor(a, a / 32) < Modulus && MixPrune(a, a / 32) * 2048 < U64Limit
  {
    var a := MixPrune(secret, secret * 64);
    ModulusIsPow();
    XorBounded(a, a / 32, 24);
  }

  /** Only the low 24 bits of the input matter: every stage commutes with
      reduction modulo 2^24. */
  lemma NextSecretLowBits(secret: nat)
    requires secret < InputLimit
    ensures NextSecret(secret) == NextSecret(secret % Modulus)
  {
    FirstStageLowBits(secret);
  }

  lemma FirstStageLowBits(secret: nat)
    ensures MixPrune(secret, secret * 64) == MixPrune(secret % Modulus, (secret % Modulus) * 64)
  {
    ModulusIsPow();
    MixMultipleLowBits(secret, 64, Modulus, 24);
  }

  /** Mixing in a multiple of the secret and reducing modulo 2^n gives the same
      result for every secret with the same low n bits. */
  lemma MixMultipleLowBits(s: nat, k: nat, m: nat, n: nat)
    requires m == Pow(2, n)
    ensures Xor(s, s * k) % m == Xor(s % m, (s % m) * k) % m
  {
    var t := s % m;
    var u, v := s * k, t * k;
    XorLowBits(s, u, n);
    assert Xor(s, u) % m == Xor(t, u % m);
    MulMod(s, k, m);
    assert u % m == v % m;
    XorLowBits(t, v, n);
    ModIdempotent(s, m);
    assert Xor(t, v) % m == Xor(t, v % m);
  }

  /** The secret after n steps. */
  function Nth(initial: nat, n: nat): (r: nat)
    requires initial < InputLimit
    ensures n > 0 ==> r < Modulus
  {
    if n == 0 then initial else NextSecret(Nth(initial, n - 1))
  }

  predicate ValidInitials(initials: seq<nat>)
  {
    forall i :: 0 <= i < |initials| ==> initials[i] < InputLimit
  }

  /** Part one's answer: the sum of each buyer's secret after n steps. */
  function SumOfNth(initials: seq<nat>, n: nat): nat
    requires ValidInitials(initials)
  {
    if |initials| == 0 then 0
    else SumOfNth(initials[..|initials| - 1], n) + Nth(initials[|initials| - 1], n)
  }

  /** `part_one`: advance every buyer 2000 times and add up the secrets. */
  method PartOne(initials: seq<nat>) returns (sum: nat)
    requires ValidInitials(initials)
    ensures sum == SumOfNth(initials, Steps)
    ensures |initials| > 0 ==> sum < |initials| * Modulus
  {
    sum := 0;
    for b := 0 to |initials|
      invariant sum == SumOfNth(initials[..b], Steps)
      invariant b > 0 ==> sum < b * Modulus
    {
      var secret := initials[b];
      for i := 0 to Steps
        invariant secret == Nth(initials[b], i)
      {
        secret := NextSecret(secret);
      }
      assert initials[..b + 1][..b] == initials[..b];
      sum := sum + secret;
    }
    assert initials[..|initials|] == initials;
  }

  /** A price: the last decimal digit of a secret. */
  type Digit = x: int | 0 <= x < 10

  /** The prices of the first n secrets, starting with the initial one. */
  function Prices(initial: nat, n: nat): (prices: seq<Digit>)
    requires initial < InputLimit
    ensures |prices| == n
  {
    if n == 0 then [] else Prices(initial, n - 1) + [Nth(initial, n - 1) % 10]
  }

  lemma {:induction false} PriceAt(initial: nat, n: nat, i: nat)
    requires initial < InputLimit && i < n
    ensures Prices(initial, n)[i] == Nth(initial, i) % 10
  {
    if i < n - 1 {
      PriceAt(initial, n - 1, i);
    }
  }

  /** Four consecutive price changes. */
  type Pattern = (int, int, int, int)

  /** The changes across the window of prices k..k+4; each lies in -9..9. */
  function PatternAt(prices: seq<Digit>, k: nat): (p: Pattern)
    requires k + 4 < |prices|
    ensures -9 <= p.0 <= 9 && -9 <= p.1 <= 9 && -9 <= p.2 <= 9 && -9 <= p.3 <= 9
  {
    var w := prices[k..k + 5];
    (w[1] as int - w[0], w[2] as int - w[1], w[3] as int - w[2], w[4] as int - w[3])
  }

  /** What a buyer records over the first k windows: for each pattern seen, the
      price ending the window where it is seen first. */
  function Recorded(prices: seq<Digit>, k: nat): map<Pattern, Digit>
    requires k + 4 <= |prices|
  {
    if k == 0 then map[]
    else
      var m := Recorded(prices, k - 1);
      var p := PatternAt(prices, k - 1);
      if p in m then m else m[p := prices[k + 3]]
  }

  /** A recorded pattern occurs, and its price is the one ending its first
      occurrence. */
  lemma {:induction false} RecordedIsFirstOccurrence(prices: seq<Digit>, k: nat, p: Pattern)
    returns (i: nat)
    requires k + 4 <= |prices| && p in Recorded(prices, k)
    ensures i < k && PatternAt(prices, i) == p && Recorded(prices, k)[p] == prices[i + 4]
    ensures forall j :: 0 <= j < i ==> PatternAt(prices, j) != p
  {
    if p in Recorded(prices, k - 1) {
      i := RecordedIsFirstOccurrence(prices, k - 1, p);
    } else {
      i := k - 1;
      forall j | 0 <= j < i
        ensures PatternAt(prices, j) != p
      {
        OccurrenceIsRecorded(prices, k - 1, j);
      }
    }
  }

  /** Every pattern occurring in the first k windows is recorded. */
  lemma {:induction false} OccurrenceIsRecorded(prices: seq<Digit>, k: nat, j: nat)
    requires k + 4 <= |prices| && j < k
    ensures PatternAt(prices, j) in Recorded(prices, k)
  {
    if j < k - 1 {
      OccurrenceIsRecorded(prices, k - 1, j);
    }
  }

  /** One buyer's record: the 2000 windows over the prices of secrets 0..2004
      (the last secret is generated but its price is never used). */
  function BuyerRecord(initial: nat): map<Pattern, Digit>
    requires initial < InputLimit
  {
    Recorded(Prices(initial, Steps + 5), Steps)
  }

  /** The patterns buyers have sold to, each with the prices in buyer order. */
  type Values = map<Pattern, seq<int>>

  /** `entry(pattern).or_default().push(price)`. */
  function Push(values: Values, p: Pattern, price: int): Values
  {
    values[p := (if p in values then values[p] else []) + [price]]
  }

  /** Appends one buyer's record to the collected values. */
  function Merge(values: Values, r: map<Pattern, Digit>): Values
  {
    map p | p in values.Keys + r.Keys ::
      (if p in values then values[p] else []) + (if p in r then [r[p] as int] else [])
  }

  lemma MergeEmpty(values: Values)
    ensures Merge(values, map[]) == values
  {
    var m := Merge(values, map[]);
    assert m.Keys == values.Keys;
    forall p | p in m
      ensures m[p] == values[p]
    {
      assert m[p] == values[p] + [];
    }
  }

  lemma MergePush(values: Values, r: map<Pattern, Digit>, p: Pattern, price: Digit)
    requires p !in r
    ensures Merge(values, r[p := price]) == Push(Merge(values, r), p, price)
  {
    var lhs, rhs := Merge(values, r[p := price]), Push(Merge(values, r), p, price);
    assert lhs.Keys == rhs.Keys;
    forall q | q in lhs
      ensures lhs[q] == rhs[q]
    {
      if q == p {
        assert lhs[q] == (if p in values then values[p] else []) + [price as int];
      }
    }
  }

  /** One window of a buyer's pass: its pattern is recorded, with the price
      ending the window, exactly when it has not been seen before. */
  lemma RecordStep(prices: seq<Digit>, k: nat, values: Values, seen: set<Pattern>, acc: Values)
    requires k + 5 <= |prices|
    requires seen == Recorded(prices, k).Keys && acc == Merge(values, Recorded(prices, k))
    ensures PatternAt(prices, k) in seen ==> Recorded(prices, k + 1) == Recorded(prices, k)
    ensures PatternAt(prices, k) !in seen ==>
      seen + {PatternAt(prices, k)} == Recorded(prices, k + 1).Keys &&
      Push(acc, PatternAt(prices, k), prices[k + 4]) == Merge(values, Recorded(prices, k + 1))
  {
    if PatternAt(prices, k) !in seen {
      MergePush(values, Recorded(prices, k), PatternAt(prices, k), prices[k + 4]);
    }
  }

  /** One buyer's pass of `part_two`: a rolling window of five prices, the
      patterns seen so far, and the shared values map. */
  method RecordBuyer(initial: nat, values: Values) returns (values': Values)
    requires initial < InputLimit
    ensures values' == Merge(values, BuyerRecord(initial))
  {
    ghost var prices := Prices(initial, Steps + 5);
    var seen: set<Pattern> := {};
    var window, secret := FirstWindow(initial);
    forall j | 0 <= j < 5
      ensures window[j] == prices[j]
    {
      PriceAt(initial, Steps + 5, j);
    }
    assert window[..] == prices[0..5];
    values' := values;
    MergeEmpty(values);
    for k := 0 to Steps
      invariant secret == Nth(initial, k + 4)
      invariant window[..] == prices[k..k + 5]
      invariant seen == Recorded(prices, k).Keys
      invariant values' == Merge(values, Recorded(prices, k))
    {
      seen, values' := Visit(window, prices, k, seen, values', values);
      ghost var before := window[..];
      secret := SlideWindow(window, secret);
      PriceAt(initial, Steps + 5, k + 5);
      WindowSlides(prices, k, before, window[..]);
    }
  }

  /** The pattern check for the window of prices k..k+4. */
  method Visit(window: array<int>, ghost prices: seq<Digit>, k: nat, seen: set<Pattern>,
               acc: Values, ghost values: Values) returns (seen': set<Pattern>, acc': Values)
    requires window.Length == 5 && k + 5 <= |prices| && window[..] == prices[k..k + 5]
    requires seen == Recorded(prices, k).Keys && acc == Merge(values, Recorded(prices, k))
    ensures seen' == Recorded(prices, k + 1).Keys && acc' == Merge(values, Recorded(prices, k + 1))
  {
    var pattern := (window[1] - window[0], window[2] - window[1],
                    window[3] - window[2], window[4] - window[3]);
    WindowPattern(prices, k, window[..]);
    RecordStep(prices, k, values, seen, acc);
    seen', acc' := seen, acc;
    if pattern !in seen {
      seen' := seen + {pattern};
      acc' := Push(acc, pattern, window[4]);
    }
  }

  lemma WindowSlides(prices: seq<Digit>, k: nat, before: seq<int>, after: seq<int>)
    requires k + 6 <= |prices| && before == prices[k..k + 5]
    requires after == before[1..] + [prices[k + 5] as int]
    ensures after == prices[k + 1..k + 6]
  {
  }

  lemma WindowPattern(prices: seq<Digit>, k: nat, w: seq<int>)
    requires k + 5 <= |prices| && w == prices[k..k + 5]
    ensures (w[1] - w[0], w[2] - w[1], w[3] - w[2], w[4] - w[3]) == PatternAt(prices, k)
  {
  }

  /** The window of the first five prices, and the secret of the last one. */
  method FirstWindow(initial: nat) returns (window: array<int>, secret: nat)
    requires initial < InputLimit
    ensures fresh(window) && window.Length == 5 && secret == Nth(initial, 4)
    ensures forall j :: 0 <= j < 5 ==> window[j] == Nth(initial, j) % 10
  {
    secret := initial;
    window := new int[5];
    window[0] := secret % 10;
    for i := 1 to 5
      invariant secret == Nth(initial, i - 1)
      invariant forall j :: 0 <= j < i ==> window[j] == Nth(initial, j) % 10
    {
      secret := NextSecret(secret);
      window[i] := secret % 10;
    }
  }

  /** Moves every price of the window one place to the left and appends the
      price of the next secret. */
  method SlideWindow(window: array<int>, secret: nat) returns (secret': nat)
    requires window.Length == 5 && secret < InputLimit
    modifies window
    ensures secret' == NextSecret(secret)
    ensures window[..] == old(window[1..]) + [secret' % 10]
  {
    for w := 0 to 4
      invariant forall j :: 0 <= j < w ==> window[j] == old(window[j + 1])
      invariant forall j :: w <= j < 5 ==> window[j] == old(window[j])
    {
      window[w] := window[w + 1];
    }
    secret' := NextSecret(secret);
    window[4] := secret' % 10;
  }

  /** Each buyer's record, in input order. */
  function Records(initials: seq<nat>): (records: seq<map<Pattern, Digit>>)
    requires ValidInitials(initials)
    ensures |records| == |initials|
    ensures forall b :: 0 <= b < |initials| ==> records[b] == BuyerRecord(initials[b])
  {
    if |initials| == 0 then []
    else Records(initials[..|initials| - 1]) + [BuyerRecord(initials[|initials| - 1])]
  }

  /** The values map after the given buyers' records. */
  function Collected(records: seq<map<Pattern, Digit>>): Values
  {
    if |records| == 0 then map[]
    else Merge(Collected(records[..|records| - 1]), records[|records| - 1])
  }

  /** The bananas a pattern earns: each buyer's first-occurrence price, or 0. */
  function Bananas(records: seq<map<Pattern, Digit>>, p: Pattern): (n: nat)
  {
    if |records| == 0 then 0
    else
      var r := records[|records| - 1];
      Bananas(records[..|records| - 1], p) + (if p in r then r[p] else 0)
  }

  function Sum(xs: seq<int>): int
  {
    if |xs| == 0 then 0 else Sum(xs[..|xs| - 1]) + xs[|xs| - 1]
  }

  lemma {:induction false} SumAppend(xs: seq<int>, ys: seq<int>)
    ensures Sum(xs + ys) == Sum(xs) + Sum(ys)
    decreases |ys|
  {
    if |ys| == 0 {
      assert xs + ys == xs;
    } else {
      var zs := xs + ys;
      assert zs[..|zs| - 1] == xs + ys[..|ys| - 1];
      assert zs[|zs| - 1] == ys[|ys| - 1];
      SumAppend(xs, ys[..|ys| - 1]);
    }
  }

  /** Summing the collected prices of a pattern gives its bananas. */
  lemma {:induction false} CollectedSums(records: seq<map<Pattern, Digit>>, p: Pattern)
    ensures p in Collected(records) ==> Sum(Collected(records)[p]) == Bananas(records, p)
    ensures p !in Collected(records) ==> Bananas(records, p) == 0
  {
    if |records| > 0 {
      var front := records[..|records| - 1];
      CollectedSums(front, p);
      var c, r := Collected(front), records[|records| - 1];
      var xs := if p in c then c[p] else [];
      var ys := if p in r then [r[p] as int] else [];
      SumAppend(xs, ys);
      if p in r {
        assert Sum(ys) == r[p] by {
          assert ys[..0] == [];
        }
      } else {
        assert xs + ys == xs;
      }
    }
  }

  /** A pattern is collected exactly when some buyer recorded it. */
  lemma {:induction false} CollectedKeys(records: seq<map<Pattern, Digit>>, p: Pattern)
    ensures p in Collected(records) <==> exists b :: 0 <= b < |records| && p in records[b]
  {
    if |records| > 0 {
      var front := records[..|records| - 1];
      CollectedKeys(front, p);
      if p in Collected(front) {
        var b :| 0 <= b < |front| && p in front[b];
        assert records[b] == front[b];
      }
      if exists b :: 0 <= b < |records| && p in records[b] {
        var b :| 0 <= b < |records| && p in records[b];
        if b < |front| {
          assert front[b] == records[b];
        }
      }
    }
  }

  /** `max()` over the summed values, in whatever order the map yields them. */
  method Best(values: Values) returns (best: Option<int>)
    ensures best.None? <==> values.Keys == {}
    ensures best.Some? ==> exists p :: p in values && Sum(values[p]) == best.value
    ensures best.Some? ==> forall p :: p in values ==> Sum(values[p]) <= best.value
  {
    best := None;
    var rest := values.Keys;
    while rest != {}
      invariant rest <= values.Keys
      invariant best.None? <==> rest == values.Keys
      invariant best.Some? ==> exists p :: p in values && p !in rest && Sum(values[p]) == best.value
      invariant best.Some? ==> forall p :: p in values && p !in rest ==> Sum(values[p]) <= best.value
      decreases rest
    {
      var p :| p in rest;
      var total := Sum(values[p]);
      if best.None? || best.value < total {
        best := Some(total);
      }
      rest := rest - {p};
    }
  }

  /** `part_two`: the most bananas any single pattern earns over all buyers,
      or None without buyers. */
  method PartTwo(initials: seq<nat>) returns (best: Option<int>)
    requires ValidInitials(initials)
    ensures best.None? <==> |initials| == 0
    ensures best.Some? ==> exists p :: Bananas(Records(initials), p) == best.value
    ensures best.Some? ==> forall p :: Bananas(Records(initials), p) <= best.value
  {
    ghost var records := Records(initials);
    var values: Values := map[];
    for b := 0 to |initials|
      invariant values == Collected(records[..b])
    {
      values := RecordBuyer(initials[b], values);
      assert records[..b + 1][..b] == records[..b];
    }
    assert records[..|initials|] == records;
    best := Best(values);
    if |initials| > 0 {
      var p := BuyerRecordNonEmpty(initials[0]);
      CollectedKeys(records, p);
      assert p in values;
    }
    if best.Some? {
      BestIsMostBananas(records, best.value);
    }
  }

  /** Every buyer sees at least its first pattern. */
  lemma BuyerRecordNonEmpty(initial: nat) returns (p: Pattern)
    requires initial < InputLimit
    ensures p in BuyerRecord(initial)
  {
    p := PatternAt(Prices(initial, Steps + 5), 0);
    OccurrenceIsRecorded(Prices(initial, Steps + 5), Steps, 0);
  }

  /** The maximum over the collected sums is the maximum of Bananas over every
      pattern. */
  lemma BestIsMostBananas(records: seq<map<Pattern, Digit>>, best: int)
    requires exists p :: p in Collected(records) && Sum(Collected(records)[p]) == best
    requires forall p :: p in Collected(records) ==> Sum(Collected(records)[p]) <= best
    ensures exists p :: Bananas(records, p) == best
    ensures forall p :: Bananas(records, p) <= best
  {
    var values := Collected(records);
    var p :| p in values && Sum(values[p]) == best;
    CollectedSums(records, p);
    forall q
      ensures Bananas(records, q) <= best
    {
      CollectedSums(records, q);
    }
  }
}
