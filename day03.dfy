/** Day 3: mull it over. Part two keeps only the text of a line that lies
    between a `do()` and the next `don't()`; the line is cut at every "do" and
    the pieces are kept or dropped one by one, with the on/off state carried
    from line to line. The `mul(a,b)` matching is done by a regular-expression
    library and is not part of this model. */
module Day03 {

  /** The line cut at every occurrence of "do", searched left to right:
      `str::split("do")`. */
  function SplitDo(s: string): (parts: seq<string>)
    ensures |parts| >= 1 && parts[0] <= s
    decreases |s|
  {
    if |s| < 2 then [s]
    else if s[..2] == "do" then [""] + SplitDo(s[2..])
    else
      var rest := SplitDo(s[1..]);
      [[s[0]] + rest[0]] + rest[1..]
  }

  /** The parts put back together with "do" between them. */
  function JoinDo(parts: seq<string>): string
    requires |parts| >= 1
  {
    if |parts| == 1 then parts[0] else parts[0] + "do" + JoinDo(parts[1..])
  }

  predicate HasDo(s: string)
  {
    exists i :: 0 <= i < |s| - 1 && s[i] == 'd' && s[i + 1] == 'o'
  }

  /** Splitting loses nothing. */
  lemma {:induction false} SplitJoin(s: string)
    ensures JoinDo(SplitDo(s)) == s
    decreases |s|
  {
    var parts := SplitDo(s);
    if |s| < 2 {
    } else if s[..2] == "do" {
      SplitJoin(s[2..]);
      assert parts[1..] == SplitDo(s[2..]);
      assert s == "do" + s[2..];
    } else {
      var rest := SplitDo(s[1..]);
      SplitJoin(s[1..]);
      assert parts[1..] == rest[1..];
      assert s == [s[0]] + s[1..];
      if |rest| > 1 {
        assert rest == [rest[0]] + rest[1..];
        assert JoinDo(rest) == rest[0] + "do" + JoinDo(rest[1..]);
      }
    }
  }

  /** No piece of the split still holds a "do". */
  lemma {:induction false} SplitPiecesFree(s: string)
    ensures forall k :: 0 <= k < |SplitDo(s)| ==> !HasDo(SplitDo(s)[k])
    decreases |s|
  {
    var parts := SplitDo(s);
    if |s| < 2 {
    } else if s[..2] == "do" {
      SplitPiecesFree(s[2..]);
      assert parts[1..] == SplitDo(s[2..]);
    } else {
      var rest := SplitDo(s[1..]);
      SplitPiecesFree(s[1..]);
      var first := [s[0]] + rest[0];
      assert parts[1..] == rest[1..];
      assert !(s[0] == 'd' && s[1] == 'o') by {
        assert s[..2] == [s[0], s[1]];
      }
      forall i | 0 <= i < |first| - 1
        ensures !(first[i] == 'd' && first[i + 1] == 'o')
      {
        if i > 0 {
          assert first[i] == rest[0][i - 1] && first[i + 1] == rest[0][i];
        } else {
          assert first[1] == rest[0][0] == s[1];
        }
      }
    }
  }

  /** A piece without "do" is split into itself. */
  lemma {:induction false} SplitFree(a: string)
    requires !HasDo(a)
    ensures SplitDo(a) == [a]
    decreases |a|
  {
    if |a| >= 2 {
      assert a[..2] != "do" by {
        assert !(a[0] == 'd' && a[1] == 'o');
      }
      assert !HasDo(a[1..]) by {
        forall i | 0 <= i < |a| - 2
          ensures !(a[1..][i] == 'd' && a[1..][i + 1] == 'o')
        {
          assert a[1..][i] == a[i + 1] && a[1..][i + 1] == a[i + 2];
        }
      }
      SplitFree(a[1..]);
      assert [a[0]] + a[1..] == a;
    }
  }

  /** The first "do" after a piece without one is where the split cuts. */
  lemma {:induction false} SplitAfterFree(a: string, b: string)
    requires !HasDo(a)
    ensures SplitDo(a + "do" + b) == [a] + SplitDo(b)
    decreases |a|
  {
    var s := a + "do" + b;
    if |a| == 0 {
      assert s[..2] == "do";
      assert s[2..] == b;
    } else {
      assert s[..2] != "do" by {
        if |a| == 1 {
          assert s[0] == a[0] && s[1] == 'd';
        } else {
          assert s[0] == a[0] && s[1] == a[1];
          assert !(a[0] == 'd' && a[1] == 'o');
        }
      }
      assert !HasDo(a[1..]) by {
        forall i | 0 <= i < |a| - 2
          ensures !(a[1..][i] == 'd' && a[1..][i + 1] == 'o')
        {
          assert a[1..][i] == a[i + 1] && a[1..][i + 1] == a[i + 2];
        }
      }
      SplitAfterFree(a[1..], b);
      assert s[1..] == a[1..] + "do" + b;
      assert [a[0]] + a[1..] == a;
    }
  }

  /** What a piece after a "do" starts with. */
  datatype Marker = Disable | Enable | Plain

  function MarkerOf(part: string): Marker
  {
    if "n't()" <= part then Disable else if "()" <= part then Enable else Plain
  }

  /** The text kept so far and the on/off flag. */
  datatype Filter = Filter(text: string, enabled: bool)

  /** One step of the fold in `valid_parts`, as written: the first piece is
      kept when enabled; a later piece starting "n't()" switches off and is
      dropped; one starting "()" switches on and is kept; any other later
      piece is dropped and leaves the flag alone. */
  function StepAsWritten(i: nat, part: string, f: Filter): Filter
  {
    if i == 0 then (if f.enabled then Filter(f.text + part, f.enabled) else f)
    else match MarkerOf(part)
      case Disable => Filter(f.text, false)
      case Enable => Filter(f.text + part, true)
      case Plain => f
  }

  function FoldAsWritten(parts: seq<string>, enabled: bool): Filter
  {
    if |parts| == 0 then Filter("", enabled)
    else StepAsWritten(|parts| - 1, parts[|parts| - 1], FoldAsWritten(parts[..|parts| - 1], enabled))
  }

  /** The piece at i, as the fold as written keeps it: the first one when the
      line starts enabled, a later one only when it starts "()" -- whatever the
      flag is at that point. */
  function KeptAsWritten(parts: seq<string>, enabled: bool): string
  {
    if |parts| == 0 then ""
    else
      var i := |parts| - 1;
      KeptAsWritten(parts[..i], enabled) +
        (if (i == 0 && enabled) || (i > 0 && MarkerOf(parts[i]) == Enable) then parts[i] else "")
  }

  /** After the first piece the flag never decides what the fold as written
      keeps: a piece after a plain "do" is dropped even while enabled. */
  lemma {:induction false} AsWrittenIgnoresFlag(parts: seq<string>, enabled: bool)
    ensures FoldAsWritten(parts, enabled).text == KeptAsWritten(parts, enabled)
    decreases |parts|
  {
    if |parts| > 0 {
      AsWrittenIgnoresFlag(parts[..|parts| - 1], enabled);
      if |parts| == 1 {
        assert parts[..0] == [];
      }
    }
  }

  /** "mul(1,2)domul(3,4)": nothing disables the second multiplication, but
      the fold as written drops it with the piece after "do". */
  lemma PlainDoDropsText()
    ensures SplitDo("mul(1,2)domul(3,4)") == ["mul(1,2)", "mul(3,4)"]
    ensures FoldAsWritten(["mul(1,2)", "mul(3,4)"], true).text == "mul(1,2)"
  {
    var a, b := "mul(1,2)", "mul(3,4)";
    assert !HasDo(a) && !HasDo(b);
    assert a + "do" + b == "mul(1,2)domul(3,4)";
    SplitAfterFree(a, b);
    SplitFree(b);
    var parts := [a, b];
    assert parts[..1] == [a];
    assert [a][..0] == [];
    assert MarkerOf(b) == Plain by {
      assert b[0] == 'm';
      assert "n't()"[0] == 'n' && "()"[0] == '(';
    }
  }

  /** The intended step: a later piece that is not a marker stays, with its
      "do", while enabled, and is dropped while disabled. */
  function Step(i: nat, part: string, f: Filter): Filter
  {
    if i == 0 then (if f.enabled then Filter(f.text + part, f.enabled) else f)
    else match MarkerOf(part)
      case Disable => Filter(f.text, false)
      case Enable => Filter(f.text + part, true)
      case Plain => if f.enabled then Filter(f.text + "do" + part, true) else f
  }

  function Fold(parts: seq<string>, enabled: bool): Filter
  {
    if |parts| == 0 then Filter("", enabled)
    else Step(|parts| - 1, parts[|parts| - 1], Fold(parts[..|parts| - 1], enabled))
  }

  /** Both folds agree on the flag; only the kept text differs. */
  lemma {:induction false} FoldsAgreeOnFlag(parts: seq<string>, enabled: bool)
    ensures Fold(parts, enabled).enabled == FoldAsWritten(parts, enabled).enabled
    decreases |parts|
  {
    if |parts| > 0 {
      FoldsAgreeOnFlag(parts[..|parts| - 1], enabled);
    }
  }

  /** With no marker after the first piece, the intended fold keeps the whole
      line when it starts enabled and nothing when it starts disabled. */
  lemma {:induction false} UnmarkedLine(parts: seq<string>, enabled: bool)
    requires |parts| >= 1
    requires forall k :: 1 <= k < |parts| ==> MarkerOf(parts[k]) == Plain
    ensures Fold(parts, enabled) == Filter(if enabled then JoinDo(parts) else "", enabled)
    decreases |parts|
  {
    var n := |parts| - 1;
    if n == 0 {
      assert parts[..0] == [];
    } else {
      var prefix := parts[..n];
      assert forall k :: 1 <= k < |prefix| ==> MarkerOf(prefix[k]) == Plain;
      UnmarkedLine(prefix, enabled);
      UnmarkedStep(prefix, parts[n], enabled);
      assert prefix + [parts[n]] == parts;
    }
  }

  /** One unmarked piece more: appended with its "do" while enabled. */
  lemma UnmarkedStep(prefix: seq<string>, last: string, enabled: bool)
    requires |prefix| >= 1 && MarkerOf(last) == Plain
    requires Fold(prefix, enabled) == Filter(if enabled then JoinDo(prefix) else "", enabled)
    ensures Fold(prefix + [last], enabled) == Filter(if enabled then JoinDo(prefix + [last]) else "", enabled)
  {
    var parts := prefix + [last];
    assert parts[..|parts| - 1] == prefix;
    JoinDoAppend(prefix, last);
  }

  lemma {:induction false} JoinDoAppend(parts: seq<string>, last: string)
    requires |parts| >= 1
    ensures JoinDo(parts + [last]) == JoinDo(parts) + "do" + last
    decreases |parts|
  {
    if |parts| == 1 {
      assert (parts + [last])[1..] == [last];
    } else {
      JoinDoAppend(parts[1..], last);
      assert (parts + [last])[1..] == parts[1..] + [last];
    }
  }

  /** A line without `do()` or `don't()` passes whole while enabled. */
  lemma UnmarkedLineKept(line: string)
    requires forall k :: 1 <= k < |SplitDo(line)| ==> MarkerOf(SplitDo(line)[k]) == Plain
    ensures Fold(SplitDo(line), true).text == line
  {
    UnmarkedLine(SplitDo(line), true);
    SplitJoin(line);
  }

  /** `valid_parts`, with the intended step: the flag comes in and goes out
      through `enabled`. */
  method ValidParts(line: string, enabled: bool) returns (text: string, enabled': bool)
    ensures Filter(text, enabled') == Fold(SplitDo(line), enabled)
  {
    var parts := SplitDo(line);
    text, enabled' := "", enabled;
    for i := 0 to |parts|
      invariant Filter(text, enabled') == Fold(parts[..i], enabled)
    {
      var part := parts[i];
      assert parts[..i + 1][..i] == parts[..i];
      if i == 0 {
        if enabled' {
          text := text + part;
        }
      } else if "n't()" <= part {
        enabled' := false;
      } else if "()" <= part {
        enabled' := true;
        text := text + part;
      } else if enabled' {
        text := text + "do" + part;
      }
    }
    assert parts[..|parts|] == parts;
  }

  /** The flag after the given lines, starting enabled. */
  function FlagAfter(lines: seq<string>): bool
  {
    if |lines| == 0 then true
    else Fold(SplitDo(lines[|lines| - 1]), FlagAfter(lines[..|lines| - 1])).enabled
  }

  /** What is kept of line k, given the flag the lines before it leave. */
  function LineText(lines: seq<string>, k: nat): string
    requires k < |lines|
  {
    Fold(SplitDo(lines[k]), FlagAfter(lines[..k])).text
  }

  /** The loop of part two over the lines: every line is filtered with the
      flag the previous lines left behind. */
  method FilterLines(lines: seq<string>) returns (texts: seq<string>)
    ensures |texts| == |lines|
    ensures forall k :: 0 <= k < |lines| ==> texts[k] == LineText(lines, k)
  {
    var enabled := true;
    texts := [];
    for i := 0 to |lines|
      invariant |texts| == i && enabled == FlagAfter(lines[..i])
      invariant forall k :: 0 <= k < i ==> texts[k] == LineText(lines, k)
    {
      var text;
      text, enabled := ValidParts(lines[i], enabled);
      assert text == LineText(lines, i);
      assert lines[..i + 1][..i] == lines[..i];
      texts := texts + [text];
    }
  }
}
