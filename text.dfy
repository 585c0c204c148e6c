// Decimal numbers in text, as Rust's `str::parse` reads them and `format!`
// writes them, and splitting a line at a separator.

module Text {
  import opened Common

  const I32Min: int := -0x8000_0000
  const I32Max: int := 0x7fff_ffff

  predicate IsDigit(c: char)
  {
    '0' <= c <= '9'
  }

  predicate AllDigits(s: string)
  {
    forall i :: 0 <= i < |s| ==> IsDigit(s[i])
  }

  /** The value of a string of decimal digits, read left to right. */
  function DigitsValue(s: string): nat
    requires AllDigits(s)
  {
    if |s| == 0 then 0 else DigitsValue(s[..|s| - 1]) * 10 + (s[|s| - 1] as int - '0' as int)
  }

  /** Rust's `str::parse::<i32>`: an optional `+` or `-`, then at least one
      digit and nothing else, with the value inside the 32-bit range; None
      where the source's `unwrap` panics. */
  function ParseI32(s: string): (r: Option<int>)
    ensures r.Some? ==> I32Min <= r.value <= I32Max
  {
    if |s| == 0 then None
    else
      var digits := if s[0] == '-' || s[0] == '+' then s[1..] else s;
      if |digits| == 0 || !AllDigits(digits) then None
      else
        var v := if s[0] == '-' then -(DigitsValue(digits) as int) else DigitsValue(digits) as int;
        if I32Min <= v <= I32Max then Some(v) else None
  }

  function DigitChar(d: nat): char
    requires d < 10
  {
    ('0' as int + d) as char
  }

  /** The decimal digits of n, without leading zeros. */
  function Decimal(n: nat): string
  {
    if n < 10 then [DigitChar(n)] else Decimal(n / 10) + [DigitChar(n % 10)]
  }

  /** The way an integer is written in the input. */
  function ShowInt(x: int): string
  {
    if x < 0 then "-" + Decimal(-x) else Decimal(x)
  }

  lemma {:induction false} DecimalDigits(n: nat)
    ensures |Decimal(n)| > 0 && AllDigits(Decimal(n)) && DigitsValue(Decimal(n)) == n
  {
    if n >= 10 {
      DecimalDigits(n / 10);
      var s := Decimal(n / 10) + [DigitChar(n % 10)];
      assert s[..|s| - 1] == Decimal(n / 10);
    }
  }

  /** Reading back a written i32 gives the number. */
  lemma ParseShowInt(x: int)
    requires I32Min <= x <= I32Max
    ensures ParseI32(ShowInt(x)) == Some(x)
  {
    var s := ShowInt(x);
    if x < 0 {
      DecimalDigits(-x);
      assert s[0] == '-' && s[1..] == Decimal(-x);
    } else {
      DecimalDigits(x);
      assert s == Decimal(x) && IsDigit(s[0]);
    }
  }

  /** A written integer holds neither a space nor a comma. */
  lemma ShowIntPlain(x: int)
    ensures ' ' !in ShowInt(x) && ',' !in ShowInt(x)
  {
    var d := Decimal(if x < 0 then -x else x);
    DecimalDigits(if x < 0 then -x else x);
    DigitsPlain(d);
    if x < 0 {
      assert ShowInt(x) == "-" + d;
    } else {
      assert ShowInt(x) == d;
    }
  }

  lemma DigitsPlain(s: string)
    requires AllDigits(s)
    ensures ' ' !in s && ',' !in s
  {
  }

  /** `str::split_once`: the text before and after the first sep. */
  function SplitOnce(s: string, sep: char): (r: Option<(string, string)>)
    ensures r.None? <==> sep !in s
    ensures r.Some? ==> r.value.0 + [sep] + r.value.1 == s && sep !in r.value.0
  {
    if |s| == 0 then None
    else if s[0] == sep then Some(([], s[1..]))
    else
      match SplitOnce(s[1..], sep)
      case None => None
      case Some((a, b)) => Some(([s[0]] + a, b))
  }

  /** A split at the first sep is the only one. */
  lemma {:induction false} SplitOnceAt(a: string, b: string, sep: char)
    requires sep !in a
    ensures SplitOnce(a + [sep] + b, sep) == Some((a, b))
  {
    var s := a + [sep] + b;
    if |a| == 0 {
      assert s[1..] == b;
    } else {
      assert s[1..] == a[1..] + [sep] + b;
      SplitOnceAt(a[1..], b, sep);
      assert [a[0]] + a[1..] == a;
    }
  }

  /** Every line parsed by parse, or None when one fails. */
  function CollectAll<T>(lines: seq<string>, parse: string -> Option<T>): Option<seq<T>>
  {
    if |lines| == 0 then Some([])
    else
      var front, last := CollectAll(lines[..|lines| - 1], parse), parse(lines[|lines| - 1]);
      if front.None? || last.None? then None else Some(front.value + [last.value])
  }

  lemma {:induction false} CollectAllLines<T>(lines: seq<string>, parse: string -> Option<T>)
    ensures CollectAll(lines, parse).None? <==> exists i :: 0 <= i < |lines| && parse(lines[i]).None?
    ensures CollectAll(lines, parse).Some? ==>
      |CollectAll(lines, parse).value| == |lines| &&
      forall i :: 0 <= i < |lines| ==> parse(lines[i]) == Some(CollectAll(lines, parse).value[i])
  {
    if |lines| > 0 {
      var front := lines[..|lines| - 1];
      CollectAllLines(front, parse);
      assert forall i :: 0 <= i < |front| ==> front[i] == lines[i];
      if CollectAll(front, parse).None? {
        var i :| 0 <= i < |front| && parse(front[i]).None?;
        assert parse(lines[i]).None?;
      }
    }
  }

  /** Rust's `str::parse::<usize>`: an optional `+`, then at least one digit
      and nothing else, with the value at most `usize::MAX`. */
  function ParseUsize(s: string): (r: Option<nat>)
    ensures r.Some? ==> r.value <= UsizeMax
  {
    var digits := if |s| > 0 && s[0] == '+' then s[1..] else s;
    if |digits| == 0 || !AllDigits(digits) then None
    else if DigitsValue(digits) <= UsizeMax then Some(DigitsValue(digits))
    else None
  }

  /** Reading back a written number at most `usize::MAX` gives the number. */
  lemma ParseShowUsize(n: nat)
    requires n <= UsizeMax
    ensures ParseUsize(Decimal(n)) == Some(n)
  {
    DecimalDigits(n);
    assert Decimal(n)[0] != '+';
  }

  /** sep starts at index i of s. */
  predicate OccursAt(s: string, sep: string, i: int)
  {
    0 <= i && i + |sep| <= |s| && s[i..i + |sep|] == sep
  }

  /** The first index from `from` on where sep starts in s. */
  function FirstAt(s: string, sep: string, from: nat): (r: Option<nat>)
    ensures r.None? ==> forall i :: from <= i ==> !OccursAt(s, sep, i)
    ensures r.Some? ==> from <= r.value && OccursAt(s, sep, r.value)
    ensures r.Some? ==> forall i :: from <= i < r.value ==> !OccursAt(s, sep, i)
    decreases |s| - from
  {
    if from + |sep| > |s| then None
    else if s[from..from + |sep|] == sep then Some(from)
    else FirstAt(s, sep, from + 1)
  }

  /** `str::split_once` with a string separator: the text before and after
      the first occurrence of sep. */
  function SplitOnceStr(s: string, sep: string): (r: Option<(string, string)>)
    ensures r.None? ==> forall i :: !OccursAt(s, sep, i)
    ensures r.Some? ==> r.value.0 + sep + r.value.1 == s && OccursAt(s, sep, |r.value.0|)
    ensures r.Some? ==> forall i :: 0 <= i < |r.value.0| ==> !OccursAt(s, sep, i)
  {
    match FirstAt(s, sep, 0)
    case None => None
    case Some(i) =>
      assert s[..i] + sep + s[i + |sep|..] == s[..i] + s[i..i + |sep|] + s[i + |sep|..] == s;
      Some((s[..i], s[i + |sep|..]))
  }

  /** A split at the first occurrence of sep is the only one. */
  lemma SplitOnceStrAt(a: string, b: string, sep: string)
    requires forall i :: 0 <= i < |a| ==> !OccursAt(a + sep + b, sep, i)
    ensures SplitOnceStr(a + sep + b, sep) == Some((a, b))
  {
    var s := a + sep + b;
    var r := SplitOnceStr(s, sep);
    assert OccursAt(s, sep, |a|);
    assert r.Some? && |r.value.0| == |a|;
    assert r.value.0 == s[..|a|] == a;
    assert r.value.1 == s[|a| + |sep|..] == b;
  }

  // ---------------------------------------------------------------------------
  // Sorted names, joined and split

  /** The order of `str`: character by character from the left, with a
      proper prefix first. */
  predicate Before(a: string, b: string)
  {
    |b| > 0 && (|a| == 0 || a[0] < b[0] || (a[0] == b[0] && Before(a[1..], b[1..])))
  }

  /** Of two different strings, one comes before the other. */
  lemma {:induction false} BeforeTotal(a: string, b: string)
    ensures a == b || Before(a, b) || Before(b, a)
  {
    if |a| > 0 && |b| > 0 && a[0] == b[0] {
      BeforeTotal(a[1..], b[1..]);
      if a[1..] == b[1..] {
        assert a == [a[0]] + a[1..] && b == [b[0]] + b[1..];
      }
    }
  }

  /** Each string comes before the next. */
  predicate Ascending(r: seq<string>)
  {
    forall i :: 0 < i < |r| ==> Before(r[i - 1], r[i])
  }

  /** x put into its place in the ascending r. */
  function Insert(x: string, r: seq<string>): (t: seq<string>)
    requires Ascending(r) && x !in r
    ensures Ascending(t) && |t| == |r| + 1
    ensures forall y :: y in t <==> y == x || y in r
    ensures |r| > 0 ==> t[0] == x || t[0] == r[0]
  {
    if |r| == 0 then [x]
    else if Before(x, r[0]) then [x] + r
    else
      BeforeTotal(x, r[0]);
      [r[0]] + Insert(x, r[1..])
  }

  /** The members of s, collected and sorted. */
  method SortNames(s: set<string>) returns (r: seq<string>)
    ensures Ascending(r) && |r| == |s|
    ensures forall x :: x in r <==> x in s
  {
    r := [];
    var rest := s;
    while rest != {}
      invariant rest <= s && Ascending(r) && |r| + |rest| == |s|
      invariant forall x :: x in r <==> x in s - rest
      decreases rest
    {
      var x :| x in rest;
      r := Insert(x, r);
      rest := rest - {x};
    }
  }

  /** `join` with a one-character separator. */
  function JoinWith(names: seq<string>, sep: char): string
  {
    if |names| == 0 then ""
    else if |names| == 1 then names[0]
    else names[0] + [sep] + JoinWith(names[1..], sep)
  }

  /** `str::split` at a character: the text between the separators. */
  function Split(s: string, sep: char): seq<string>
    decreases |s|
  {
    match SplitOnce(s, sep)
    case None => [s]
    case Some((a, b)) => [a] + Split(b, sep)
  }

  /** Splitting a join gives back the names, as long as there is at least
      one name and no name holds the separator. */
  lemma {:induction false} SplitJoin(names: seq<string>, sep: char)
    requires |names| > 0 && forall i :: 0 <= i < |names| ==> sep !in names[i]
    ensures Split(JoinWith(names, sep), sep) == names
  {
    if |names| > 1 {
      SplitJoin(names[1..], sep);
      SplitOnceAt(names[0], JoinWith(names[1..], sep), sep);
      assert [names[0]] + names[1..] == names;
    }
  }
}
