// Day 24: a circuit of AND, XOR and OR gates. Part one evaluates every gate
// from the initial wire values, keeping the values found so far in a map, and
// reads the number on the z wires; part two flags the wires whose gates break
// the pattern of a ripple-carry adder.

module Day24 {
  import opened Common
  import opened Text

  type Wire = string

  /** A gate: its first input, the text of its operation, its second input. */
  type Gate = (Wire, string, Wire)

  /** Each gate under the wire it drives. */
  type GateMap = map<Wire, Gate>

  datatype GateOperation = And | Xor | Or

  /** `GateOperation::from`: None where the source panics. */
  function OperationFrom(op: string): Option<GateOperation>
  {
    match op
    case "AND" => Some(And)
    case "XOR" => Some(Xor)
    case "OR" => Some(Or)
    case _ => None
  }

  /** How an operation is written in the input. */
  function OperationName(o: GateOperation): string
  {
    match o
    case And => "AND"
    case Xor => "XOR"
    case Or => "OR"
  }

  /** Exactly the three names parse, each to its own operation. */
  lemma OperationNames(op: string, o: GateOperation)
    ensures OperationFrom(op) == Some(o) <==> op == OperationName(o)
    ensures OperationFrom(op).None? <==> op != "AND" && op != "XOR" && op != "OR"
  {
  }

  /** Lines 36-40: XOR is inequality. */
  function Apply(o: GateOperation, a: bool, b: bool): bool
  {
    match o
    case And => a && b
    case Xor => a != b
    case Or => a || b
  }

  // ---------------------------------------------------------------------------
  // Parsing

  /** One line of the first section: a wire, ": ", and its value, which is
      true exactly when it reads "1". */
  function ParseSignal(line: string): Option<(Wire, bool)>
  {
    match SplitOnceStr(line, ": ")
    case None => None
    case Some((name, value)) => Some((name, value == "1"))
  }

  lemma SignalLine(name: Wire, value: string)
    requires ':' !in name
    ensures ParseSignal(name + ": " + value) == Some((name, value == "1"))
  {
    var s := name + ": " + value;
    forall i | 0 <= i < |name|
      ensures !OccursAt(s, ": ", i)
    {
      assert s[i] == name[i];
    }
    SplitOnceStrAt(name, value, ": ");
  }

  /** The pairs as a map, a later pair replacing an earlier one. */
  function ToMap(pairs: seq<(Wire, bool)>): map<Wire, bool>
  {
    if |pairs| == 0 then map[]
    else ToMap(pairs[..|pairs| - 1])[pairs[|pairs| - 1].0 := pairs[|pairs| - 1].1]
  }

  /** A wire is in the map when some pair names it, with the value of the
      last pair that does. */
  lemma {:induction false} ToMapLast(pairs: seq<(Wire, bool)>, i: int)
    requires 0 <= i < |pairs| && forall j :: i < j < |pairs| ==> pairs[j].0 != pairs[i].0
    ensures pairs[i].0 in ToMap(pairs) && ToMap(pairs)[pairs[i].0] == pairs[i].1
  {
    if i < |pairs| - 1 {
      ToMapLast(pairs[..|pairs| - 1], i);
    }
  }

  lemma {:induction false} ToMapKeys(pairs: seq<(Wire, bool)>, w: Wire)
    ensures w in ToMap(pairs) <==> exists i :: 0 <= i < |pairs| && pairs[i].0 == w
  {
    if |pairs| > 0 {
      var front := pairs[..|pairs| - 1];
      ToMapKeys(front, w);
      if w in ToMap(front) {
        var i :| 0 <= i < |front| && front[i].0 == w;
        assert pairs[i].0 == w;
      }
    }
  }

  /** `parse_input` after the split into sections (lines 62-68): None when
      a line lacks ": ". */
  function ParseSignals(lines: seq<string>): (r: Option<map<Wire, bool>>)
    ensures r.None? <==> exists i :: 0 <= i < |lines| && ParseSignal(lines[i]).None?
  {
    CollectAllLines(lines, ParseSignal);
    match CollectAll(lines, ParseSignal)
    case None => None
    case Some(pairs) => Some(ToMap(pairs))
  }

  /** A line of the second section: five fields split at single spaces, the
      fourth of them ignored; None for any other number of fields. */
  function ParseGate(line: string): Option<(Wire, Gate)>
  {
    var f := Split(line, ' ');
    if |f| == 5 then Some((f[4], (f[0], f[1], f[2]))) else None
  }

  lemma GateLine(in1: Wire, op: string, in2: Wire, out: Wire)
    requires ' ' !in in1 && ' ' !in op && ' ' !in in2 && ' ' !in out
    ensures ParseGate(in1 + " " + op + " " + in2 + " -> " + out) == Some((out, (in1, op, in2)))
  {
    var fields := [in1, op, in2, "->", out];
    assert JoinWith(fields, ' ') == in1 + " " + op + " " + in2 + " -> " + out by {
      assert JoinWith(fields[4..], ' ') == out;
      assert JoinWith(fields[3..], ' ') == "->" + [' '] + out;
      assert JoinWith(fields[2..], ' ') == in2 + [' '] + ("->" + [' '] + out);
      assert JoinWith(fields[1..], ' ') == op + [' '] + (in2 + [' '] + ("->" + [' '] + out));
    }
    SplitJoin(fields, ' ');
  }

  /** `parse_gates`: the gates of the lines that parse, a later line for a
      wire replacing an earlier one. */
  function ParseGates(lines: seq<string>): (r: GateMap)
    ensures |r| <= |lines|
  {
    if |lines| == 0 then map[]
    else
      var gates := ParseGates(lines[..|lines| - 1]);
      match ParseGate(lines[|lines| - 1])
      case None => gates
      case Some((out, gate)) => gates[out := gate]
  }

  /** The wires with a gate are the outputs named by the lines that parse,
      each with its gate. */
  lemma {:induction false} ParseGatesKeys(lines: seq<string>, w: Wire)
    ensures w in ParseGates(lines) <==> exists i :: 0 <= i < |lines| && ParseGate(lines[i]).Some? && ParseGate(lines[i]).value.0 == w
    ensures w in ParseGates(lines) ==> exists i :: 0 <= i < |lines| && ParseGate(lines[i]) == Some((w, ParseGates(lines)[w]))
  {
    if |lines| > 0 {
      var n := |lines| - 1;
      var front := lines[..n];
      ParseGatesKeys(front, w);
      var last := ParseGate(lines[n]);
      if last.Some? && last.value.0 == w {
        assert ParseGates(lines) == ParseGates(front)[w := last.value.1];
        assert last == Some((w, ParseGates(lines)[w]));
      } else {
        KeysPastLine(lines, w);
      }
    }
  }

  /** The step of ParseGatesKeys for a last line that does not define w. */
  lemma KeysPastLine(lines: seq<string>, w: Wire)
    requires |lines| > 0
    requires var last := ParseGate(lines[|lines| - 1]); !(last.Some? && last.value.0 == w)
    requires var front := lines[..|lines| - 1];
      (w in ParseGates(front) <==> exists i :: 0 <= i < |front| && ParseGate(front[i]).Some? && ParseGate(front[i]).value.0 == w) &&
      (w in ParseGates(front) ==> exists i :: 0 <= i < |front| && ParseGate(front[i]) == Some((w, ParseGates(front)[w])))
    ensures w in ParseGates(lines) <==> exists i :: 0 <= i < |lines| && ParseGate(lines[i]).Some? && ParseGate(lines[i]).value.0 == w
    ensures w in ParseGates(lines) ==> exists i :: 0 <= i < |lines| && ParseGate(lines[i]) == Some((w, ParseGates(lines)[w]))
  {
    var n := |lines| - 1;
    var front := lines[..n];
    assert w in ParseGates(lines) <==> w in ParseGates(front);
    assert w in ParseGates(lines) ==> ParseGates(lines)[w] == ParseGates(front)[w];
    if w in ParseGates(front) {
      var i :| 0 <= i < |front| && ParseGate(front[i]) == Some((w, ParseGates(front)[w]));
      assert lines[i] == front[i];
    }
    if exists i :: 0 <= i < |lines| && ParseGate(lines[i]).Some? && ParseGate(lines[i]).value.0 == w {
      var i :| 0 <= i < |lines| && ParseGate(lines[i]).Some? && ParseGate(lines[i]).value.0 == w;
      assert i < n && lines[i] == front[i];
    }
  }

  /** The lines before the first empty line and the lines after it; None
      when no line is empty. */
  function SplitAtEmpty(lines: seq<string>): (r: Option<(seq<string>, seq<string>)>)
    ensures r.None? <==> "" !in lines
    ensures r.Some? ==> r.value.0 + [""] + r.value.1 == lines && "" !in r.value.0
  {
    if |lines| == 0 then None
    else if lines[0] == "" then Some(([], lines[1..]))
    else
      match SplitAtEmpty(lines[1..])
      case None => None
      case Some((a, b)) => Some(([lines[0]] + a, b))
  }

  /** The two sections of the input, as `split_once("\n\n")` and `lines`
      give them when the input is its lines joined by line breaks. A "\n\n"
      is a line break followed by an empty line, so the break is the first
      empty line after the first line. A first section that is one empty
      line is the empty text, which has no lines. None when no line after
      the first is empty. */
  function Sections(lines: seq<string>): (r: Option<(seq<string>, seq<string>)>)
    ensures r.None? <==> |lines| == 0 || "" !in lines[1..]
    ensures r.Some? ==>
      var i := |lines| - |r.value.1| - 1;
      1 <= i < |lines| && lines[i] == "" && "" !in lines[1..i] && r.value.1 == lines[i + 1..] &&
      r.value.0 == if i == 1 && lines[0] == "" then [] else lines[..i]
  {
    if |lines| == 0 then None
    else
      match SplitAtEmpty(lines[1..])
      case None => None
      case Some((a, b)) =>
        assert lines[1..][..|a|] == a;
        Some((if a == [] && lines[0] == "" then [] else [lines[0]] + a, b))
  }

  /** A leading empty line is not the break: it is the first line of the
      first section. */
  lemma SectionsLeadingEmpty()
    ensures Sections(["", "x: 1", "", "y"]) == Some((["", "x: 1"], ["y"]))
  {
    var lines := ["", "x: 1", "", "y"];
    var tail := lines[1..];
    assert tail == ["x: 1", "", "y"];
    assert tail[1..] == ["", "y"];
    assert SplitAtEmpty(tail[1..]) == Some(([], ["y"]));
    assert tail[0] != "" by { assert |tail[0]| == 4; }
    assert SplitAtEmpty(tail) == Some(([tail[0]] + [], ["y"]));
    assert [lines[0]] + ([tail[0]] + []) == ["", "x: 1"];
  }

  /** Two leading empty lines are the break, with nothing before it. */
  lemma SectionsEmptyFirst()
    ensures Sections(["", "", "x"]) == Some(([], ["x"]))
  {
    var lines := ["", "", "x"];
    assert lines[1..] == ["", "x"];
    assert ["", "x"][1..] == ["x"];
  }

  // ---------------------------------------------------------------------------
  // Part one: evaluation

  /** The rank of w, 0 for a wire rank does not order. */
  function Rank(rank: map<Wire, nat>, w: Wire): nat
  {
    if w in rank then rank[w] + 1 else 0
  }

  /** rank puts every gate whose wire has no initial value above its
      inputs: evaluation never comes back to a wire it is evaluating. */
  predicate Acyclic(gates: GateMap, init: map<Wire, bool>, rank: map<Wire, nat>)
  {
    forall w :: w in gates && w !in init ==> Rank(rank, gates[w].0) < Rank(rank, w) && Rank(rank, gates[w].2) < Rank(rank, w)
  }

  /** The value of wire w: its initial value, or else its gate's operation
      on the values of its inputs. None where evaluating w panics: a wire
      with neither, or an operation that does not parse. */
  function Value(gates: GateMap, init: map<Wire, bool>, rank: map<Wire, nat>, w: Wire): Option<bool>
    requires Acyclic(gates, init, rank)
    decreases Rank(rank, w)
  {
    if w in init then Some(init[w])
    else if w !in gates then None
    else
      var (a, op, b) := gates[w];
      var va, vb, o := Value(gates, init, rank, a), Value(gates, init, rank, b), OperationFrom(op);
      if va.None? || vb.None? || o.None? then None else Some(Apply(o.value, va.value, vb.value))
  }

  /** A gate driving a wire that has an initial value is never evaluated,
      even when it feeds itself. */
  lemma InitialWins()
    ensures Acyclic(map["b" := ("a", "AND", "b")], map["b" := true], map[])
    ensures Value(map["b" := ("a", "AND", "b")], map["b" := true], map[], "b") == Some(true)
  {
  }

  /** m holds the initial values and, beyond them, only values of gates,
      each the value of its wire. */
  ghost predicate Memo(gates: GateMap, init: map<Wire, bool>, rank: map<Wire, nat>, m: map<Wire, bool>)
    requires Acyclic(gates, init, rank)
  {
    (forall w :: w in init ==> w in m && m[w] == init[w]) &&
    (forall w :: w in m ==> (w in init || w in gates) && Value(gates, init, rank, w) == Some(m[w]))
  }

  /** m' keeps every entry of m. */
  predicate Extends(m: map<Wire, bool>, m': map<Wire, bool>)
  {
    forall w :: w in m ==> w in m' && m'[w] == m[w]
  }

  /** `evaluate_gate`: a wire with a value is left alone; otherwise both
      inputs are evaluated first, then the gate's value is inserted. None
      where the source panics. */
  method EvaluateGate(gates: GateMap, signals: map<Wire, bool>, node: Wire,
                      ghost init: map<Wire, bool>, ghost rank: map<Wire, nat>)
    returns (r: Option<map<Wire, bool>>)
    requires Acyclic(gates, init, rank) && Memo(gates, init, rank, signals)
    ensures r.Some? <==> Value(gates, init, rank, node).Some?
    ensures r.Some? ==> Memo(gates, init, rank, r.value) && node in r.value && Extends(signals, r.value)
    decreases Rank(rank, node)
  {
    if node in signals {
      return Some(signals);
    }
    if node !in gates {
      return None;
    }
    var (in1, op, in2) := gates[node];
    var first := EvaluateGate(gates, signals, in1, init, rank);
    if first.None? {
      return None;
    }
    var second := EvaluateGate(gates, first.value, in2, init, rank);
    if second.None? {
      return None;
    }
    var o := OperationFrom(op);
    if o.None? {
      return None;
    }
    var m := second.value;
    r := Some(m[node := Apply(o.value, m[in1], m[in2])]);
  }

  /** Every wire with an initial value or a gate, with its value. */
  function Circuit(gates: GateMap, init: map<Wire, bool>, rank: map<Wire, nat>): map<Wire, bool>
    requires Acyclic(gates, init, rank) && forall w :: w in gates ==> Value(gates, init, rank, w).Some?
  {
    map w | w in init.Keys + gates.Keys :: Value(gates, init, rank, w).value
  }

  /** Lines 87-89: evaluate the gate of every wire that has one, in any
      order; None when one of them panics. */
  method EvaluateAll(gates: GateMap, init: map<Wire, bool>, ghost rank: map<Wire, nat>)
    returns (r: Option<map<Wire, bool>>)
    requires Acyclic(gates, init, rank)
    ensures r.Some? <==> forall w :: w in gates ==> Value(gates, init, rank, w).Some?
    ensures r.Some? ==> r.value == Circuit(gates, init, rank)
  {
    var signals := init;
    var rest := gates.Keys;
    while rest != {}
      invariant rest <= gates.Keys && Memo(gates, init, rank, signals)
      invariant forall w :: w in gates && w !in rest ==> w in signals
      decreases rest
    {
      var node :| node in rest;
      var next := EvaluateGate(gates, signals, node, init, rank);
      if next.None? {
        return None;
      }
      signals := next.value;
      rest := rest - {node};
    }
    assert signals.Keys == init.Keys + gates.Keys;
    return Some(signals);
  }

  /** The weight of a wire: 2^n when the text after its first character
      reads as the number n, and 0 when it does not. */
  function Weight(w: Wire): nat
  {
    if |w| == 0 then 0
    else
      match ParseUsize(w[1..])
      case None => 0
      case Some(n) => Pow(2, n)
  }

  /** What wire w adds to the number on the wires starting with prefix. */
  function Part(m: map<Wire, bool>, prefix: char, w: Wire): nat
  {
    if w in m && |w| > 0 && w[0] == prefix && m[w] then Weight(w) else 0
  }

  /** The parts of the wires in keys. */
  ghost function Total(m: map<Wire, bool>, prefix: char, keys: set<Wire>): nat
    decreases keys
  {
    if keys == {} then 0
    else
      var w :| w in keys;
      Part(m, prefix, w) + Total(m, prefix, keys - {w})
  }

  /** Any wire of keys may be taken out first. */
  lemma {:induction false} TotalRemove(m: map<Wire, bool>, prefix: char, keys: set<Wire>, w: Wire)
    requires w in keys
    ensures Total(m, prefix, keys) == Part(m, prefix, w) + Total(m, prefix, keys - {w})
    decreases keys
  {
    var v :| v in keys && Total(m, prefix, keys) == Part(m, prefix, v) + Total(m, prefix, keys - {v});
    if v != w {
      TotalRemove(m, prefix, keys - {v}, w);
      TotalRemove(m, prefix, keys - {w}, v);
      assert keys - {v} - {w} == keys - {w} - {v};
    }
  }

  /** Maps that agree on the wires of keys give them the same total. */
  lemma {:induction false} TotalAgree(m: map<Wire, bool>, m': map<Wire, bool>, prefix: char, keys: set<Wire>)
    requires forall w :: w in keys ==> Part(m, prefix, w) == Part(m', prefix, w)
    ensures Total(m, prefix, keys) == Total(m', prefix, keys)
    decreases keys
  {
    if keys != {} {
      var w :| w in keys;
      TotalRemove(m, prefix, keys, w);
      TotalRemove(m', prefix, keys, w);
      TotalAgree(m, m', prefix, keys - {w});
    }
  }

  /** `calculate_signal_value` as a number: the sum of 2^n over the true
      wires named prefix followed by n. */
  ghost function SignalValue(m: map<Wire, bool>, prefix: char): nat
  {
    Total(m, prefix, m.Keys)
  }

  /** A new wire adds 2^n when it is true and named prefix followed by n,
      and nothing otherwise, an unreadable number included. */
  lemma SignalValueAdd(m: map<Wire, bool>, prefix: char, w: Wire, v: bool)
    requires w !in m
    ensures SignalValue(m[w := v], prefix) == SignalValue(m, prefix) + Part(m[w := v], prefix, w)
    ensures Part(m[w := v], prefix, w) == (if v && |w| > 0 && w[0] == prefix then Weight(w) else 0)
  {
    var m' := m[w := v];
    TotalRemove(m', prefix, m'.Keys, w);
    assert m'.Keys - {w} == m.Keys;
    TotalAgree(m', m, prefix, m.Keys);
  }

  /** Lines 44-57: add the weights of the true wires starting with prefix,
      visiting the wires in any order. */
  method CalculateSignalValue(signals: map<Wire, bool>, prefix: char) returns (n: nat)
    ensures n == SignalValue(signals, prefix)
  {
    n := 0;
    var rest := signals.Keys;
    while rest != {}
      invariant rest <= signals.Keys
      invariant n + Total(signals, prefix, rest) == SignalValue(signals, prefix)
      decreases rest
    {
      var w :| w in rest;
      TotalRemove(signals, prefix, rest, w);
      if |w| > 0 && w[0] == prefix && signals[w] {
        var suffix := ParseUsize(w[1..]);
        if suffix.Some? {
          n := n + Pow(2, suffix.value);
        }
      }
      rest := rest - {w};
    }
  }

  /** `part_one`: None without a section break, with a first-section line
      lacking ": ", or when a gate panics; otherwise the number on the z
      wires of the evaluated circuit. */
  method PartOne(lines: seq<string>, ghost rank: map<Wire, nat>) returns (r: Option<nat>)
    requires Sections(lines).Some? && ParseSignals(Sections(lines).value.0).Some? ==>
      Acyclic(ParseGates(Sections(lines).value.1), ParseSignals(Sections(lines).value.0).value, rank)
    ensures r.Some? <==>
      Sections(lines).Some? && ParseSignals(Sections(lines).value.0).Some? &&
      forall w :: w in ParseGates(Sections(lines).value.1) ==>
        Value(ParseGates(Sections(lines).value.1), ParseSignals(Sections(lines).value.0).value, rank, w).Some?
    ensures r.Some? ==>
      r.value == SignalValue(Circuit(ParseGates(Sections(lines).value.1), ParseSignals(Sections(lines).value.0).value, rank), 'z')
  {
    var sections := Sections(lines);
    if sections.None? {
      return None;
    }
    var init := ParseSignals(sections.value.0);
    if init.None? {
      return None;
    }
    var gates := ParseGates(sections.value.1);
    var signals := EvaluateAll(gates, init.value, rank);
    if signals.None? {
      ghost var w :| w in gates && Value(gates, init.value, rank, w).None?;
      assert gates == ParseGates(Sections(lines).value.1);
      assert init.value == ParseSignals(Sections(lines).value.0).value;
      assert Value(ParseGates(Sections(lines).value.1), ParseSignals(Sections(lines).value.0).value, rank, w).None?;
      return None;
    }
    var n := CalculateSignalValue(signals.value, 'z');
    return Some(n);
  }

  // ---------------------------------------------------------------------------
  // Part two: wires that break the adder pattern

  predicate StartsWith(w: Wire, c: char)
  {
    |w| > 0 && w[0] == c
  }

  /** `starts_with(['x', 'y'])`: a wire of one of the two added numbers. */
  predicate InputWire(w: Wire)
  {
    StartsWith(w, 'x') || StartsWith(w, 'y')
  }

  datatype Category = XyCarry | XySum | FullCarry | Outputs | Carry

  /** Lines 102-112: a gate on an x or y wire is an xy carry (AND) or an xy
      sum (XOR); any other gate is a full carry (AND), an output (XOR) or a
      carry (OR); the rest, such as an OR on an x or y wire, has none. */
  function Categorize(g: Gate): Option<Category>
  {
    var xy := InputWire(g.0) || InputWire(g.2);
    if g.1 == "AND" then Some(if xy then XyCarry else FullCarry)
    else if g.1 == "XOR" then Some(if xy then XySum else Outputs)
    else if g.1 == "OR" && !xy then Some(Carry)
    else None
  }

  /** The wires of done whose gates fall in category c. */
  function InCategory(gates: GateMap, done: set<Wire>, c: Category): set<Wire>
  {
    set w | w in done && w in gates && Categorize(gates[w]) == Some(c)
  }

  /** The gates of category c. */
  function Members(gates: GateMap, c: Category): set<Wire>
  {
    InCategory(gates, gates.Keys, c)
  }

  /** Some gate of category c reads wire w. */
  predicate Feeds(gates: GateMap, c: Category, w: Wire)
  {
    exists v :: v in gates && Categorize(gates[v]) == Some(c) && (gates[v].0 == w || gates[v].2 == w)
  }

  /** The name of a wire driven by a gate of category c is wrong: an output
      not on a z wire, a carry on a z wire other than z45, a full carry on a
      z wire. */
  predicate NameWrong(c: Category, w: Wire)
  {
    match c
    case Outputs => !StartsWith(w, 'z')
    case Carry => StartsWith(w, 'z') && w != "z45"
    case FullCarry => StartsWith(w, 'z')
    case _ => false
  }

  /** The category whose gates must read what a gate of category c drives:
      outputs read xy sums and carries read xy carries. */
  function Reader(c: Category): Category
  {
    if c == XySum then Outputs else Carry
  }

  /** A gate that drives w is flagged by lines 148-157 and 169-178: its
      first input is not x00 or y00, and w is a z wire or no gate of the
      reading category reads it. */
  predicate Unread(gates: GateMap, c: Category, w: Wire)
    requires w in gates
  {
    gates[w].0 != "x00" && gates[w].0 != "y00" && (StartsWith(w, 'z') || !Feeds(gates, Reader(c), w))
  }

  /** The gates of category c with a wrong name. */
  function WrongNames(gates: GateMap, c: Category): set<Wire>
  {
    set w | w in Members(gates, c) && NameWrong(c, w)
  }

  /** The gates of category c that are flagged as unread. */
  function Unreads(gates: GateMap, c: Category): set<Wire>
  {
    set w | w in Members(gates, c) && Unread(gates, c, w)
  }

  /** The wires part two reports: outputs, xy sums, xy carries, carries and
      full carries that break the adder pattern. */
  function Flagged(gates: GateMap): set<Wire>
  {
    WrongNames(gates, Outputs) + Unreads(gates, XySum) + Unreads(gates, XyCarry) +
    WrongNames(gates, Carry) + WrongNames(gates, FullCarry)
  }

  /** The list of category c, empty when there is none
      (`categories.get(..)` with `unwrap_or(&default)` or `if let`). */
  function Entries(cats: map<Category, seq<(Wire, Gate)>>, c: Category): seq<(Wire, Gate)>
  {
    if c in cats then cats[c] else []
  }

  /** The wires listed. */
  function Signals(list: seq<(Wire, Gate)>): set<Wire>
  {
    set i | 0 <= i < |list| :: list[i].0
  }

  /** Each listed wire is listed with its gate. */
  predicate Faithful(gates: GateMap, list: seq<(Wire, Gate)>)
  {
    forall i :: 0 <= i < |list| ==> list[i].0 in gates && gates[list[i].0] == list[i].1
  }

  /** The lists hold, with its gate, each wire of done whose gate falls in
      their category. */
  ghost predicate GroupedOver(gates: GateMap, cats: map<Category, seq<(Wire, Gate)>>, done: set<Wire>)
  {
    forall c: Category :: Signals(Entries(cats, c)) == InCategory(gates, done, c) && Faithful(gates, Entries(cats, c))
  }

  lemma SignalsAppend(list: seq<(Wire, Gate)>, e: (Wire, Gate))
    ensures Signals(list + [e]) == Signals(list) + {e.0}
  {
    assert forall i :: 0 <= i < |list| ==> (list + [e])[i] == list[i];
    assert (list + [e])[|list|] == e;
  }

  lemma GroupedStep(gates: GateMap, cats: map<Category, seq<(Wire, Gate)>>, done: set<Wire>, w: Wire)
    requires w in gates && GroupedOver(gates, cats, done)
    ensures Categorize(gates[w]).None? ==> GroupedOver(gates, cats, done + {w})
    ensures Categorize(gates[w]).Some? ==>
      var c := Categorize(gates[w]).value;
      GroupedOver(gates, cats[c := Entries(cats, c) + [(w, gates[w])]], done + {w})
  {
    var cat := Categorize(gates[w]);
    var cats' := if cat.Some? then cats[cat.value := Entries(cats, cat.value) + [(w, gates[w])]] else cats;
    forall d: Category
      ensures Signals(Entries(cats', d)) == InCategory(gates, done + {w}, d) && Faithful(gates, Entries(cats', d))
    {
      assert Signals(Entries(cats, d)) == InCategory(gates, done, d) && Faithful(gates, Entries(cats, d));
      if cat == Some(d) {
        SignalsAppend(Entries(cats, d), (w, gates[w]));
        assert InCategory(gates, done + {w}, d) == InCategory(gates, done, d) + {w};
      } else {
        assert Entries(cats', d) == Entries(cats, d);
        assert InCategory(gates, done + {w}, d) == InCategory(gates, done, d);
      }
    }
  }

  /** Lines 101-115: group the gates by category, in any order. */
  method Categorise(gates: GateMap) returns (cats: map<Category, seq<(Wire, Gate)>>)
    ensures GroupedOver(gates, cats, gates.Keys)
  {
    cats := map[];
    var rest := gates.Keys;
    while rest != {}
      invariant rest <= gates.Keys && GroupedOver(gates, cats, gates.Keys - rest)
      decreases rest
    {
      var signal :| signal in rest;
      var category := Categorize(gates[signal]);
      GroupedStep(gates, cats, gates.Keys - rest, signal);
      if category.Some? {
        cats := cats[category.value := Entries(cats, category.value) + [(signal, gates[signal])]];
      }
      assert gates.Keys - (rest - {signal}) == (gates.Keys - rest) + {signal};
      rest := rest - {signal};
    }
  }

  /** The members of a list. */
  function Elems(list: seq<Wire>): set<Wire>
  {
    set i | 0 <= i < |list| :: list[i]
  }

  lemma ElemsAppend(list: seq<Wire>, w: Wire)
    ensures Elems(list + [w]) == Elems(list) + {w}
  {
    assert forall i :: 0 <= i < |list| ==> (list + [w])[i] == list[i];
    assert (list + [w])[|list|] == w;
  }

  /** `process_outputs`, `process_carries` and `process_full_carries`
      (lines 127-139, 183-209): add the wires of category c whose names are
      wrong. */
  method ProcessNamed(cats: map<Category, seq<(Wire, Gate)>>, c: Category, incorrect: seq<Wire>)
    returns (incorrect': seq<Wire>)
    ensures Elems(incorrect') == Elems(incorrect) + set w | w in Signals(Entries(cats, c)) && NameWrong(c, w)
  {
    var list := Entries(cats, c);
    incorrect' := incorrect;
    for i := 0 to |list|
      invariant Elems(incorrect') == Elems(incorrect) + set w | w in Signals(list[..i]) && NameWrong(c, w)
    {
      assert Signals(list[..i + 1]) == Signals(list[..i]) + {list[i].0} by {
        assert forall j :: 0 <= j < i ==> list[..i + 1][j] == list[..i][j];
        assert list[..i + 1][i] == list[i];
      }
      if NameWrong(c, list[i].0) {
        ElemsAppend(incorrect', list[i].0);
        incorrect' := incorrect' + [list[i].0];
      }
    }
    assert list[..|list|] == list;
  }

  /** The `any` of lines 152-154 and 173-175: some gate of the list reads
      signal. */
  method UsedIn(list: seq<(Wire, Gate)>, signal: Wire) returns (used: bool)
    ensures used <==> exists i :: 0 <= i < |list| && (list[i].1.0 == signal || list[i].1.2 == signal)
  {
    for i := 0 to |list|
      invariant forall j :: 0 <= j < i ==> list[j].1.0 != signal && list[j].1.2 != signal
    {
      if list[i].1.0 == signal || list[i].1.2 == signal {
        return true;
      }
    }
    return false;
  }

  /** A listed wire of category c is flagged: its gate's first input is not
      x00 or y00, and it is a z wire or no gate of the reader list reads it. */
  predicate UnreadIn(cats: map<Category, seq<(Wire, Gate)>>, c: Category, e: (Wire, Gate))
  {
    e.1.0 != "x00" && e.1.0 != "y00" &&
    (StartsWith(e.0, 'z') ||
     !(exists j :: 0 <= j < |Entries(cats, Reader(c))| &&
         (Entries(cats, Reader(c))[j].1.0 == e.0 || Entries(cats, Reader(c))[j].1.2 == e.0)))
  }

  /** `process_xy_sums` and `process_xy_carries` (lines 141-181): add the
      wires of category c that their readers do not read or that are z
      wires, skipping the gates on x00 or y00. */
  method ProcessUnread(cats: map<Category, seq<(Wire, Gate)>>, c: Category, incorrect: seq<Wire>)
    returns (incorrect': seq<Wire>)
    ensures Elems(incorrect') == Elems(incorrect) +
      set i | 0 <= i < |Entries(cats, c)| && UnreadIn(cats, c, Entries(cats, c)[i]) :: Entries(cats, c)[i].0
  {
    var list, readers := Entries(cats, c), Entries(cats, Reader(c));
    incorrect' := incorrect;
    for i := 0 to |list|
      invariant Elems(incorrect') == Elems(incorrect) +
        set j | 0 <= j < i && UnreadIn(cats, c, list[j]) :: list[j].0
    {
      var (signal, (in1, _, _)) := list[i];
      if in1 == "x00" || in1 == "y00" {
        continue;
      }
      var used := UsedIn(readers, signal);
      if StartsWith(signal, 'z') || !used {
        ElemsAppend(incorrect', signal);
        incorrect' := incorrect' + [signal];
      }
    }
  }

  /** With the gates grouped, the wires a name rule adds are the wrong
      names of its category. */
  lemma NamedAdded(gates: GateMap, cats: map<Category, seq<(Wire, Gate)>>, c: Category)
    requires GroupedOver(gates, cats, gates.Keys)
    ensures (set w | w in Signals(Entries(cats, c)) && NameWrong(c, w)) == WrongNames(gates, c)
  {
    assert Signals(Entries(cats, c)) == Members(gates, c);
  }

  /** With the gates grouped, the wires an unread rule adds are the unread
      wires of its category. */
  lemma UnreadAdded(gates: GateMap, cats: map<Category, seq<(Wire, Gate)>>, c: Category)
    requires GroupedOver(gates, cats, gates.Keys)
    ensures (set i | 0 <= i < |Entries(cats, c)| && UnreadIn(cats, c, Entries(cats, c)[i]) :: Entries(cats, c)[i].0) == Unreads(gates, c)
  {
    var list, readers := Entries(cats, c), Entries(cats, Reader(c));
    assert Signals(list) == Members(gates, c) && Faithful(gates, list);
    assert Signals(readers) == Members(gates, Reader(c)) && Faithful(gates, readers);
    forall w | w in gates
      ensures Feeds(gates, Reader(c), w) <==> exists j :: 0 <= j < |readers| && (readers[j].1.0 == w || readers[j].1.2 == w)
    {
      if Feeds(gates, Reader(c), w) {
        var v :| v in gates && Categorize(gates[v]) == Some(Reader(c)) && (gates[v].0 == w || gates[v].2 == w);
        assert v in Members(gates, Reader(c));
        var j :| 0 <= j < |readers| && readers[j].0 == v;
        assert readers[j].1 == gates[v];
      }
      if exists j :: 0 <= j < |readers| && (readers[j].1.0 == w || readers[j].1.2 == w) {
        var j :| 0 <= j < |readers| && (readers[j].1.0 == w || readers[j].1.2 == w);
        assert readers[j].0 in Members(gates, Reader(c));
      }
    }
    forall w | w in Unreads(gates, c)
      ensures exists i :: 0 <= i < |list| && UnreadIn(cats, c, list[i]) && list[i].0 == w
    {
      assert w in Signals(list);
      var i :| 0 <= i < |list| && list[i].0 == w;
      assert UnreadIn(cats, c, list[i]);
    }
  }

  /** Lines 97-122: run the five rules over the grouped gates. */
  method FlagWires(gates: GateMap) returns (incorrect: seq<Wire>)
    ensures Elems(incorrect) == Flagged(gates)
  {
    var cats := Categorise(gates);
    incorrect := [];
    NamedAdded(gates, cats, Outputs);
    incorrect := ProcessNamed(cats, Outputs, incorrect);
    assert Elems(incorrect) == WrongNames(gates, Outputs);
    UnreadAdded(gates, cats, XySum);
    incorrect := ProcessUnread(cats, XySum, incorrect);
    assert Elems(incorrect) == WrongNames(gates, Outputs) + Unreads(gates, XySum);
    UnreadAdded(gates, cats, XyCarry);
    incorrect := ProcessUnread(cats, XyCarry, incorrect);
    NamedAdded(gates, cats, Carry);
    incorrect := ProcessNamed(cats, Carry, incorrect);
    NamedAdded(gates, cats, FullCarry);
    incorrect := ProcessNamed(cats, FullCarry, incorrect);
  }

  /** `part_two`: the flagged wires, sorted and joined by commas; None
      without a section break. */
  method PartTwo(lines: seq<string>) returns (r: Option<string>)
    ensures r.None? <==> Sections(lines).None?
    ensures r.Some? ==> exists names ::
      r.value == JoinWith(names, ',') && Ascending(names) &&
      forall w :: w in names <==> w in Flagged(ParseGates(Sections(lines).value.1))
  {
    var sections := Sections(lines);
    if sections.None? {
      return None;
    }
    var incorrect := FlagWires(ParseGates(sections.value.1));
    var names := SortNames(Elems(incorrect));
    r := Some(JoinWith(names, ','));
  }
}
