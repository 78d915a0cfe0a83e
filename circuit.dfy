/**
 * QuickCircuit: wires carrying a boolean or a 16-bit value, gates that compute an output
 * wire from their inputs, and the building of a diagram from its description lines
 * (AdventOfCode2021/Tools/QuickCircuit.cs).
 */
module Circuits {
  import opened Wrappers
  import opened Text
  import CSharpInt
  import opened Words

  datatype GateType = NOT | SAME | AND | OR | XOR | LSHIFT | RSHIFT

  datatype DiagramType = Boolean | Analog

  /** The `object?` a wire holds: nothing yet, a `bool`, or a `ushort`. */
  datatype WireValue = Null | Bool(b: bool) | Word(w: bv16)

  predicate IsBinary(t: GateType) { t == AND || t == OR || t == XOR }
  predicate IsUnary(t: GateType) { t == NOT || t == SAME }
  predicate IsShift(t: GateType) { t == LSHIFT || t == RSHIFT }

  /** What `Compute` does to the output wire: nothing, a new value, or an exception. */
  datatype Effect = Unchanged | Assign(v: WireValue) | Throws(reason: string)

  /** An unboxing cast `(bool)v` or `(ushort)v` of a value of the other kind. */
  const InvalidCast := "InvalidCastException"

  /**
   * Lines 82-115: the effect of a gate on its output, from the values of its inputs (`Null`
   * for a missing second input). `&&` and `||` do not evaluate their right operand when the
   * left one decides, so the cast of the second input only happens when it is needed.
   */
  function Evaluate(gateType: GateType, v1: WireValue, v2: WireValue, shiftSize: int): (e: Effect)
    ensures v1.Null? ==> e.Unchanged?
    ensures IsBinary(gateType) && v2.Null? ==> e.Unchanged?
    ensures e.Assign? ==> (v1.Bool? <==> e.v.Bool?) && !e.v.Null?
  {
    if v1.Null? then Unchanged
    else if IsBinary(gateType) && v2.Null? then Unchanged
    else if v1.Bool? then EvaluateBool(gateType, v1.b, v2)
    else EvaluateWord(gateType, v1.w, v2, shiftSize)
  }

  /** Lines 89-100: a boolean first input. */
  function EvaluateBool(gateType: GateType, a: bool, v2: WireValue): (e: Effect)
    ensures e.Assign? ==> e.v.Bool?
  {
    match gateType
    case NOT => Assign(Bool(!a))
    case SAME => Assign(Bool(a))
    case AND => if !a then Assign(Bool(false)) else if v2.Bool? then Assign(Bool(v2.b)) else Throws(InvalidCast)
    case OR => if a then Assign(Bool(true)) else if v2.Bool? then Assign(Bool(v2.b)) else Throws(InvalidCast)
    case XOR => if v2.Bool? then Assign(Bool(a != v2.b)) else Throws(InvalidCast)
    case LSHIFT => Throws("NotImplementedException")
    case RSHIFT => Throws("NotImplementedException")
  }

  /** Lines 101-114: a 16-bit first input; results are cut back to 16 bits. */
  function EvaluateWord(gateType: GateType, x: bv16, v2: WireValue, shiftSize: int): (e: Effect)
    ensures e.Assign? ==> e.v.Word?
  {
    match gateType
    case NOT => Assign(Word(WordGate(NOT, x, 0)))
    case SAME => Assign(Word(WordGate(SAME, x, 0)))
    case AND => if v2.Word? then Assign(Word(WordGate(AND, x, v2.w))) else Throws(InvalidCast)
    case OR => if v2.Word? then Assign(Word(WordGate(OR, x, v2.w))) else Throws(InvalidCast)
    case XOR => if v2.Word? then Assign(Word(WordGate(XOR, x, v2.w))) else Throws(InvalidCast)
    case LSHIFT => Assign(Word(ShiftLeft(x, ShiftCount(shiftSize))))
    case RSHIFT => Assign(Word(ShiftRight(x, ShiftCount(shiftSize))))
  }

  /** `~`, `&`, `|` and `^` on 16-bit values. */
  function WordGate(gateType: GateType, x: bv16, y: bv16): bv16
    requires !IsShift(gateType)
  {
    match gateType
    case NOT => !x
    case SAME => x
    case AND => x & y
    case OR => x | y
    case XOR => x ^ y
  }

  /** The boolean meaning of each gate that is not a shift. */
  function BoolGate(gateType: GateType, a: bool, b: bool): bool
    requires !IsShift(gateType)
  {
    match gateType
    case NOT => !a
    case SAME => a
    case AND => a && b
    case OR => a || b
    case XOR => a != b
  }

  /** On boolean wires every gate but the shifts has its usual meaning; shifts throw. */
  lemma BooleanGates(gateType: GateType, a: bool, b: bool, shiftSize: int)
    ensures IsShift(gateType) ==> Evaluate(gateType, Bool(a), Bool(b), shiftSize).Throws?
    ensures !IsShift(gateType) ==> Evaluate(gateType, Bool(a), Bool(b), shiftSize) == Assign(Bool(BoolGate(gateType, a, b)))
  {
  }

  /** On a 16-bit wire NOT flips every bit, which is 65535 - x. */
  lemma AnalogNot(x: bv16, v2: WireValue, shiftSize: int, k: bv8)
    requires k < 16
    ensures var e := Evaluate(NOT, Word(x), v2, shiftSize);
      e == Assign(Word(0xFFFF - x)) && Bit(e.v.w, k) == !Bit(x, k)
  {
    NotBit(x, k);
    NotComplement(x);
    assert Evaluate(NOT, Word(x), v2, shiftSize) == Assign(Word(!x));
  }

  /** Two NOT gates give a 16-bit value back. */
  lemma AnalogNotTwice(x: bv16, v2: WireValue, shiftSize: int)
    ensures Evaluate(NOT, Evaluate(NOT, Word(x), v2, shiftSize).v, v2, shiftSize) == Assign(Word(x))
  {
    NotComplement(x);
    assert Evaluate(NOT, Word(x), v2, shiftSize) == Assign(Word(!x));
    assert Evaluate(NOT, Word(!x), v2, shiftSize) == Assign(Word(!!x));
  }

  /** On 16-bit wires AND, OR and XOR are their boolean gates applied bit by bit. */
  lemma AnalogAnd(x: bv16, y: bv16, shiftSize: int, k: bv8)
    requires k < 16
    ensures var e := Evaluate(AND, Word(x), Word(y), shiftSize);
      e.Assign? && e.v.Word? && Bit(e.v.w, k) == (Bit(x, k) && Bit(y, k))
  {
    AndBit(x, y, k);
  }

  lemma AnalogOr(x: bv16, y: bv16, shiftSize: int, k: bv8)
    requires k < 16
    ensures var e := Evaluate(OR, Word(x), Word(y), shiftSize);
      e.Assign? && e.v.Word? && Bit(e.v.w, k) == (Bit(x, k) || Bit(y, k))
  {
    OrBit(x, y, k);
  }

  lemma AnalogXor(x: bv16, y: bv16, shiftSize: int, k: bv8)
    requires k < 16
    ensures var e := Evaluate(XOR, Word(x), Word(y), shiftSize);
      e.Assign? && e.v.Word? && Bit(e.v.w, k) == (Bit(x, k) != Bit(y, k))
  {
    XorBit(x, y, k);
  }

  /** Shifting left by k moves bit j - k to bit j and clears the k low bits; 16 or more clears every bit. */
  lemma ShiftLeftBits(x: bv16, shiftSize: int, j: bv8)
    requires j < 16
    ensures var e := Evaluate(LSHIFT, Word(x), Null, shiftSize); var k := ShiftCount(shiftSize);
      e.Assign? && e.v.Word? && Bit(e.v.w, j) == (k <= j && Bit(x, j - k))
  {
    ShiftLeftBit(x, ShiftCount(shiftSize), j);
  }

  /** Shifting right by k moves bit j + k to bit j; 16 or more clears every bit. */
  lemma ShiftRightBits(x: bv16, shiftSize: int, j: bv8)
    requires j < 16
    ensures var e := Evaluate(RSHIFT, Word(x), Null, shiftSize); var k := ShiftCount(shiftSize);
      e.Assign? && e.v.Word? && Bit(e.v.w, j) == (j + k < 16 && Bit(x, j + k))
  {
    ShiftRightBit(x, ShiftCount(shiftSize), j);
  }

  /**
   * A gate throws only on a boolean shift or on a second input of the other kind that the
   * gate has to read; with inputs of one kind it always assigns.
   */
  lemma ComputeThrows(gateType: GateType, v1: WireValue, v2: WireValue, shiftSize: int)
    ensures Evaluate(gateType, v1, v2, shiftSize).Throws? <==>
      !v1.Null? && ((v1.Bool? && IsShift(gateType)) ||
       (IsBinary(gateType) && !v2.Null? && (v1.Bool? != v2.Bool?) &&
        !(v1.Bool? && gateType == AND && !v1.b) && !(v1.Bool? && gateType == OR && v1.b)))
  {
  }

  /** Lines 22-33: a named wire of a diagram and the value it currently holds. */
  class Wire {
    var name: string
    var diagramType: DiagramType
    var value: WireValue

    constructor (name: string, diagramType: DiagramType, value: WireValue)
      ensures this.name == name && this.diagramType == diagramType && this.value == value
    {
      this.name := name;
      this.diagramType := diagramType;
      this.value := value;
    }
  }

  /** Lines 35-126: a gate reading one or two wires and writing a third. */
  class Gate {
    const id: int
    const gateType: GateType
    var input1: Wire
    var input2: Wire?
    var output: Wire
    var shiftSize: int

    constructor Make(id: int, gateType: GateType, input1: Wire, input2: Wire?, output: Wire, shiftSize: int)
      ensures this.id == id && this.gateType == gateType && this.input1 == input1 && this.input2 == input2
      ensures this.output == output && this.shiftSize == shiftSize
    {
      this.id := id;
      this.gateType := gateType;
      this.input1 := input1;
      this.input2 := input2;
      this.output := output;
      this.shiftSize := shiftSize;
    }

    /** Lines 44-55: AND, OR or XOR over two wires; any other kind is an `ArgumentException`. */
    static method Binary(id: int, gateType: GateType, input1: Wire, input2: Wire, output: Wire) returns (r: Result<Gate>)
      ensures r.Ok? <==> IsBinary(gateType)
      ensures r.Ok? ==> (fresh(r.value) && r.value.id == id && r.value.gateType == gateType &&
                         r.value.input1 == input1 && r.value.input2 == input2 && r.value.output == output && r.value.shiftSize == 0)
    {
      if !IsBinary(gateType) {
        return Fail("ArgumentException");
      }
      var g := new Gate.Make(id, gateType, input1, input2, output, 0);
      return Ok(g);
    }

    /** Lines 57-67: NOT or SAME over one wire; any other kind is an `ArgumentException`. */
    static method Unary(id: int, gateType: GateType, input1: Wire, output: Wire) returns (r: Result<Gate>)
      ensures r.Ok? <==> IsUnary(gateType)
      ensures r.Ok? ==> (fresh(r.value) && r.value.id == id && r.value.gateType == gateType &&
                         r.value.input1 == input1 && r.value.input2 == null && r.value.output == output && r.value.shiftSize == 0)
    {
      if !IsUnary(gateType) {
        return Fail("ArgumentException");
      }
      var g := new Gate.Make(id, gateType, input1, null, output, 0);
      return Ok(g);
    }

    /** Lines 69-80: LSHIFT or RSHIFT of one wire; any other kind is an `ArgumentException`. */
    static method Shift(id: int, gateType: GateType, input1: Wire, output: Wire, shiftSize: int) returns (r: Result<Gate>)
      ensures r.Ok? <==> IsShift(gateType)
      ensures r.Ok? ==> (fresh(r.value) && r.value.id == id && r.value.gateType == gateType &&
                         r.value.input1 == input1 && r.value.input2 == null && r.value.output == output && r.value.shiftSize == shiftSize)
    {
      if !IsShift(gateType) {
        return Fail("ArgumentException");
      }
      var g := new Gate.Make(id, gateType, input1, null, output, shiftSize);
      return Ok(g);
    }

    /**
     * Lines 82-115: the output wire takes the gate's value of its inputs; nothing changes while
     * an input it needs is empty, and an exception leaves the output as it was.
     */
    method Compute() returns (failure: Option<string>)
      modifies output
      ensures var e := Evaluate(gateType, old(input1.value), if input2 == null then Null else old(input2.value), shiftSize);
        match e
        case Unchanged => failure.None? && output.value == old(output.value)
        case Assign(v) => failure.None? && output.value == v
        case Throws(reason) => failure == Some(reason) && output.value == old(output.value)
    {
      var v2 := if input2 == null then Null else input2.value;
      var e := Evaluate(gateType, input1.value, v2, shiftSize);
      match e {
        case Unchanged =>
          return None;
        case Assign(v) =>
          output.value := v;
          return None;
        case Throws(reason) =>
          return Some(reason);
      }
    }
  }

  // ---------------------------------------------------------------------------------------
  // Values written in a diagram.
  // ---------------------------------------------------------------------------------------

  /**
   * Lines 226-243: empty text is no value; a boolean diagram reads exactly "0" and "1"; an
   * analog diagram reads the numbers 0 to 65535.
   */
  function ValueFromString(value: string, diagramType: DiagramType): (r: WireValue)
    ensures r.Null? || (diagramType == Boolean <==> r.Bool?)
    ensures |value| == 0 ==> r.Null?
  {
    if |value| == 0 then Null
    else match diagramType
      case Boolean => if value == "0" then Bool(false) else if value == "1" then Bool(true) else Null
      case Analog =>
        var n := ParseInt(value);
        if n.Some? && 0 <= n.value < 0x1_0000 then Word(n.value as bv16) else Null
  }

  /** Every value written out is read back: "0"/"1" for booleans, decimal text for 16-bit words. */
  lemma ValueRoundTrip(b: bool, w: bv16)
    ensures ValueFromString(if b then "1" else "0", Boolean) == Bool(b)
    ensures ValueFromString(NatToString(w as int), Analog) == Word(w)
  {
    ParseIntToString(w as int);
    assert IntToString(w as int) == NatToString(w as int);
  }

  /** Numbers outside 0..65535 and text that is not a number give no value. */
  lemma ValueRejects(n: int)
    requires n < 0 || n >= 0x1_0000
    ensures ValueFromString(IntToString(n), Analog).Null?
  {
    ParseIntToString(n);
  }

  // ---------------------------------------------------------------------------------------
  // Building a diagram (lines 128-224).
  // ---------------------------------------------------------------------------------------

  /** The words left of "->" and the trimmed text right of it. */
  datatype Arrow = Arrow(left: seq<string>, right: string)

  /**
   * One description line, already cut up: the trimmed pieces around ':' when the line has
   * one, and its "->" part when it has one (a line may have both).
   */
  datatype DiagramLine = DiagramLine(colon: Option<seq<string>>, arrow: Option<Arrow>)

  /** A gate to build once every line is read: its kind and the names of its wires. */
  datatype GateInfo = GateInfo(gateType: GateType, input1: string, input2: string, output: string)

  /** What the first pass has gathered: each wire's first value, and the gates in order. */
  datatype Scan = Scan(values: map<string, WireValue>, infos: seq<GateInfo>)

  /**
   * Which text gives the initial value of the second operand of AND, OR and XOR: the code
   * reads the gate's name (line 193), the intended reading is the operand itself.
   */
  datatype Reading = AsWritten | Intended

  const IndexOutOfRange := "IndexOutOfRangeException"

  /** `Enum.Parse` of a gate name; any other text is an `ArgumentException`. */
  function ParseGateType(text: string): (r: Option<GateType>)
    ensures r.Some? ==> |text| >= 2
  {
    if text == "NOT" then Some(NOT)
    else if text == "SAME" then Some(SAME)
    else if text == "AND" then Some(AND)
    else if text == "OR" then Some(OR)
    else if text == "XOR" then Some(XOR)
    else if text == "LSHIFT" then Some(LSHIFT)
    else if text == "RSHIFT" then Some(RSHIFT)
    else None
  }

  /** `Information.IsNumeric`, read as: the text is an integer. */
  predicate IsNumeric(text: string)
  {
    ParseInt(text).Some?
  }

  /** `Dictionary.TryAdd`: a name already present keeps its value. */
  function TryAdd(values: map<string, WireValue>, name: string, v: WireValue): (r: map<string, WireValue>)
    ensures r.Keys == values.Keys + {name}
    ensures name in values ==> r[name] == values[name]
    ensures name !in values ==> r[name] == v
    ensures forall k :: k in values && k != name ==> r[k] == values[k]
  {
    if name in values then values else values[name := v]
  }

  /** Lines 135-139: "value : name" adds the wire `name` holding `value` unless it exists. */
  function ColonStep(values: map<string, WireValue>, parts: seq<string>, diagramType: DiagramType): Result<map<string, WireValue>>
  {
    if |parts| < 2 then Fail(IndexOutOfRange)
    else Ok(TryAdd(values, parts[1], ValueFromString(parts[0], diagramType)))
  }

  /**
   * Lines 159-160 and 172-208: record a gate and add, in order, its first input, its second
   * input (AND, OR and XOR only; starting at the value of `secondText`) and its output.
   */
  function AddGate(scan: Scan, info: GateInfo, secondText: string, diagramType: DiagramType): (r: Scan)
    ensures r.infos == scan.infos + [info]
    ensures r.values.Keys == scan.values.Keys + {info.input1, info.output} + (if IsBinary(info.gateType) then {info.input2} else {})
  {
    var withFirst := TryAdd(scan.values, info.input1, ValueFromString(info.input1, diagramType));
    var withSecond :=
      if IsBinary(info.gateType) then TryAdd(withFirst, info.input2, ValueFromString(secondText, diagramType))
      else withFirst;
    Scan(TryAdd(withSecond, info.output, ValueFromString(info.output, diagramType)), scan.infos + [info])
  }

  /**
   * Lines 144-208 without the wires: the gate an "->" part describes (not a lone number), and
   * the text the value of its second input is read from.
   */
  function ParseArrow(arrow: Arrow, reading: Reading): (r: Result<(GateInfo, string)>)
    ensures r.Ok? && !IsBinary(r.value.0.gateType) ==> r.value.1 == ""
    ensures r.Ok? && reading == Intended && IsBinary(r.value.0.gateType) ==> r.value.1 == r.value.0.input2
  {
    var left := arrow.left;
    var right := arrow.right;
    if |left| == 1 then Ok((GateInfo(SAME, left[0], "", right), ""))
    else
      var parsed := if |left| >= 1 then ParseGateType(if |left| == 2 then left[0] else left[1]) else Some(SAME);
      if parsed.None? then Fail("ArgumentException")
      else
        var g := parsed.value;
        if g == NOT then Ok((GateInfo(NOT, left[1], "", right), ""))
        else if g == SAME then
          if |left| < 1 then Fail(IndexOutOfRange)
          else Ok((GateInfo(SAME, left[0], "", right), ""))
        else if |left| < 3 then Fail(IndexOutOfRange)
        else if IsBinary(g) then
          var second := if reading == AsWritten then left[1] else left[2];
          Ok((GateInfo(g, left[0], left[2], right), second))
        else
          Ok((GateInfo(g, left[0], left[2], right), ""))
  }

  /** Lines 140-216: one "->" part. */
  function ArrowStep(scan: Scan, arrow: Arrow, diagramType: DiagramType, reading: Reading): Result<Scan>
  {
    if |arrow.left| == 1 && IsNumeric(arrow.left[0]) then
      // Added, or else overwritten: either way the wire now holds the constant.
      Ok(scan.(values := scan.values[arrow.right := ValueFromString(arrow.left[0], diagramType)]))
    else
      var gate := ParseArrow(arrow, reading);
      if gate.Fail? then Fail(gate.error)
      else Ok(AddGate(scan, gate.value.0, gate.value.1, diagramType))
  }

  function LineStep(scan: Scan, line: DiagramLine, diagramType: DiagramType, reading: Reading): Result<Scan>
  {
    var afterColon :=
      if line.colon.None? then Ok(scan)
      else
        var v := ColonStep(scan.values, line.colon.value, diagramType);
        if v.Fail? then Fail(v.error) else Ok(scan.(values := v.value));
    if afterColon.Fail? || line.arrow.None? then afterColon
    else ArrowStep(afterColon.value, line.arrow.value, diagramType, reading)
  }

  /** Lines 132-217: the first pass over the lines, stopping at the first exception. */
  function ScanFrom(scan: Scan, lines: seq<DiagramLine>, diagramType: DiagramType, reading: Reading): Result<Scan>
    decreases |lines|
  {
    if |lines| == 0 then Ok(scan)
    else
      var next := LineStep(scan, lines[0], diagramType, reading);
      if next.Fail? then next else ScanFrom(next.value, lines[1..], diagramType, reading)
  }

  function ScanLines(lines: seq<DiagramLine>, diagramType: DiagramType, reading: Reading): Result<Scan>
  {
    ScanFrom(Scan(map[], []), lines, diagramType, reading)
  }

  /** Every wire a gate reads or writes has been created. */
  predicate Known(scan: Scan)
  {
    forall i :: 0 <= i < |scan.infos| ==>
      scan.infos[i].input1 in scan.values && scan.infos[i].output in scan.values &&
      (IsBinary(scan.infos[i].gateType) ==> scan.infos[i].input2 in scan.values)
  }

  lemma ArrowKnown(scan: Scan, arrow: Arrow, diagramType: DiagramType, reading: Reading)
    requires Known(scan)
    ensures var r := ArrowStep(scan, arrow, diagramType, reading);
      r.Ok? ==> (Known(r.value) && scan.values.Keys <= r.value.values.Keys && |r.value.infos| >= |scan.infos| &&
                 r.value.infos[..|scan.infos|] == scan.infos)
  {
    var r := ArrowStep(scan, arrow, diagramType, reading);
    if r.Ok? && !(|arrow.left| == 1 && IsNumeric(arrow.left[0])) {
      KnownAppend(scan, r.value);
    }
  }

  lemma KnownAppend(scan: Scan, next: Scan)
    requires Known(scan) && scan.values.Keys <= next.values.Keys && |next.infos| == |scan.infos| + 1
    requires next.infos == scan.infos + [next.infos[|scan.infos|]]
    requires var info := next.infos[|scan.infos|];
      info.input1 in next.values && info.output in next.values && (IsBinary(info.gateType) ==> info.input2 in next.values)
    ensures Known(next)
  {
    forall i | 0 <= i < |next.infos|
      ensures next.infos[i].input1 in next.values && next.infos[i].output in next.values
      ensures IsBinary(next.infos[i].gateType) ==> next.infos[i].input2 in next.values
    {
      if i < |scan.infos| {
        assert next.infos[i] == scan.infos[i];
      }
    }
  }

  lemma LineKnown(scan: Scan, line: DiagramLine, diagramType: DiagramType, reading: Reading)
    requires Known(scan)
    ensures var r := LineStep(scan, line, diagramType, reading);
      r.Ok? ==> (Known(r.value) && scan.values.Keys <= r.value.values.Keys && |r.value.infos| >= |scan.infos| &&
                 r.value.infos[..|scan.infos|] == scan.infos)
  {
    if line.colon.Some? {
      var v := ColonStep(scan.values, line.colon.value, diagramType);
      if v.Ok? {
        var mid := scan.(values := v.value);
        assert Known(mid);
        if line.arrow.Some? {
          ArrowKnown(mid, line.arrow.value, diagramType, reading);
        }
      }
    } else if line.arrow.Some? {
      ArrowKnown(scan, line.arrow.value, diagramType, reading);
    }
  }

  /** The gate list only grows, every wire stays, and every gate's wires exist. */
  lemma {:induction false} ScanKnown(scan: Scan, lines: seq<DiagramLine>, diagramType: DiagramType, reading: Reading)
    requires Known(scan)
    ensures var r := ScanFrom(scan, lines, diagramType, reading);
      r.Ok? ==> (Known(r.value) && scan.values.Keys <= r.value.values.Keys && |r.value.infos| >= |scan.infos| &&
                 r.value.infos[..|scan.infos|] == scan.infos)
    decreases |lines|
  {
    if |lines| > 0 {
      LineKnown(scan, lines[0], diagramType, reading);
      var next := LineStep(scan, lines[0], diagramType, reading);
      if next.Ok? {
        ScanKnown(next.value, lines[1..], diagramType, reading);
      }
    }
  }

  /** Lines 149-156: a lone number before "->" sets the wire, whether or not it existed. */
  lemma ConstantOverwrites(scan: Scan, number: string, name: string, diagramType: DiagramType, reading: Reading)
    requires IsNumeric(number)
    ensures var r := LineStep(scan, DiagramLine(None, Some(Arrow([number], name))), diagramType, reading);
      r.Ok? && r.value.values == scan.values[name := ValueFromString(number, diagramType)] && r.value.infos == scan.infos
  {
  }

  /** No line gives a wire a value of its own: no ':' line and no lone number before "->". */
  predicate NoConstants(lines: seq<DiagramLine>)
  {
    forall i :: 0 <= i < |lines| ==>
      lines[i].colon.None? &&
      (lines[i].arrow.Some? && |lines[i].arrow.value.left| == 1 ==> !IsNumeric(lines[i].arrow.value.left[0]))
  }

  /** Each wire holds the value its own name reads as (a constant operand holds itself). */
  predicate SelfValued(values: map<string, WireValue>, diagramType: DiagramType)
  {
    forall k :: k in values ==> values[k] == ValueFromString(k, diagramType)
  }

  lemma TryAddSelf(values: map<string, WireValue>, name: string, diagramType: DiagramType)
    requires SelfValued(values, diagramType)
    ensures SelfValued(TryAdd(values, name, ValueFromString(name, diagramType)), diagramType)
  {
  }

  /** A gate whose second input starts at the value of its own name keeps every wire self-valued. */
  lemma AddGateSelf(scan: Scan, info: GateInfo, second: string, diagramType: DiagramType)
    requires SelfValued(scan.values, diagramType) && (IsBinary(info.gateType) ==> second == info.input2)
    ensures SelfValued(AddGate(scan, info, second, diagramType).values, diagramType)
  {
    var withFirst := TryAdd(scan.values, info.input1, ValueFromString(info.input1, diagramType));
    TryAddSelf(scan.values, info.input1, diagramType);
    var withSecond :=
      if IsBinary(info.gateType) then TryAdd(withFirst, info.input2, ValueFromString(info.input2, diagramType))
      else withFirst;
    TryAddSelf(withFirst, info.input2, diagramType);
    TryAddSelf(withSecond, info.output, diagramType);
  }

  lemma ArrowSelfValued(scan: Scan, arrow: Arrow, diagramType: DiagramType)
    requires SelfValued(scan.values, diagramType)
    requires |arrow.left| == 1 ==> !IsNumeric(arrow.left[0])
    ensures var r := ArrowStep(scan, arrow, diagramType, Intended);
      r.Ok? ==> SelfValued(r.value.values, diagramType)
  {
    var gate := ParseArrow(arrow, Intended);
    if gate.Ok? {
      AddGateSelf(scan, gate.value.0, gate.value.1, diagramType);
    }
  }

  lemma LineSelfValued(scan: Scan, line: DiagramLine, diagramType: DiagramType)
    requires SelfValued(scan.values, diagramType) && NoConstants([line])
    ensures var r := LineStep(scan, line, diagramType, Intended);
      r.Ok? ==> SelfValued(r.value.values, diagramType)
  {
    assert line == [line][0];
    if line.arrow.Some? {
      ArrowSelfValued(scan, line.arrow.value, diagramType);
    }
  }

  /**
   * With the operand read as intended, a diagram without constants starts every wire at the
   * value of its own name, so "x AND 1 -> y" gives the wire "1" the value 1.
   */
  lemma {:induction false} IntendedSelfValued(scan: Scan, lines: seq<DiagramLine>, diagramType: DiagramType)
    requires SelfValued(scan.values, diagramType) && NoConstants(lines)
    ensures var r := ScanFrom(scan, lines, diagramType, Intended);
      r.Ok? ==> SelfValued(r.value.values, diagramType)
    decreases |lines|
  {
    if |lines| > 0 {
      assert NoConstants([lines[0]]) by {
        assert [lines[0]][0] == lines[0];
      }
      LineSelfValued(scan, lines[0], diagramType);
      var next := LineStep(scan, lines[0], diagramType, Intended);
      if next.Ok? {
        assert NoConstants(lines[1..]) by {
          forall i | 0 <= i < |lines[1..]|
            ensures lines[1..][i] == lines[i + 1]
          {
          }
        }
        IntendedSelfValued(next.value, lines[1..], diagramType);
      }
    }
  }

  /** As written, the constant second operand of "x AND 1 -> y" starts empty. */
  lemma SecondOperandUnset()
    ensures var lines := [DiagramLine(None, Some(Arrow(["x", "AND", "1"], "y")))];
      var asWritten := ScanLines(lines, Boolean, AsWritten);
      var intended := ScanLines(lines, Boolean, Intended);
      NoConstants(lines) && asWritten.Ok? && "1" in asWritten.value.values && asWritten.value.values["1"] == Null &&
      intended.Ok? && "1" in intended.value.values && intended.value.values["1"] == Bool(true) &&
      ValueFromString("1", Boolean) == Bool(true)
  {
    var lines := [DiagramLine(None, Some(Arrow(["x", "AND", "1"], "y")))];
    assert ParseGateType("AND") == Some(AND);
    assert ValueFromString("AND", Boolean) == Null;
  }

  /** `int.Parse` of a shift size: an `int` or a `FormatException`/`OverflowException`. */
  function ParseShift(text: string): (r: Result<int>)
    ensures r.Ok? ==> CSharpInt.IsInt32(r.value) && ParseInt(text) == Some(r.value)
    ensures ParseInt(text).Some? && CSharpInt.IsInt32(ParseInt(text).value) ==> r.Ok?
  {
    var n := ParseInt(text);
    if n.None? then Fail("FormatException")
    else if !CSharpInt.IsInt32(n.value) then Fail("OverflowException")
    else Ok(n.value)
  }

  /** The shift size a gate gets: parsed for the shifts, 0 for every other kind. */
  function ShiftOf(info: GateInfo): Result<int>
  {
    if IsShift(info.gateType) then ParseShift(info.input2) else Ok(0)
  }

  /** Every shift size parses, so the second pass builds every gate. */
  predicate AllShiftsParse(infos: seq<GateInfo>)
  {
    forall i :: 0 <= i < |infos| ==> ShiftOf(infos[i]).Ok?
  }

  /** The wires a diagram hands out stand for the gathered values: one wire per name, named by its key. */
  predicate WiresHold(wires: map<string, Wire>, values: map<string, WireValue>, diagramType: DiagramType)
    reads wires.Values
  {
    wires.Keys == values.Keys &&
    (forall k :: k in wires ==> wires[k].name == k && wires[k].diagramType == diagramType && wires[k].value == values[k]) &&
    (forall a, b :: a in wires && b in wires && a != b ==> wires[a] != wires[b])
  }

  /** Lines 212-218: gate number `id` built from its description over the diagram's wires. */
  predicate GateBuilt(gate: Gate, id: int, info: GateInfo, wires: map<string, Wire>)
    reads gate
  {
    gate.id == id && gate.gateType == info.gateType &&
    info.input1 in wires && gate.input1 == wires[info.input1] &&
    info.output in wires && gate.output == wires[info.output] &&
    (if IsBinary(info.gateType) then info.input2 in wires && gate.input2 == wires[info.input2] else gate.input2 == null) &&
    ShiftOf(info).Ok? && gate.shiftSize == ShiftOf(info).value
  }

  /** `allWire.TryAdd(name, new Wire(name, type, v))`. */
  method AddWire(wires: map<string, Wire>, ghost values: map<string, WireValue>, name: string, v: WireValue, diagramType: DiagramType)
    returns (r: map<string, Wire>)
    requires WiresHold(wires, values, diagramType)
    ensures WiresHold(r, TryAdd(values, name, v), diagramType)
    ensures forall k :: k in r ==> (k in wires && r[k] == wires[k]) || fresh(r[k])
  {
    if name in wires {
      return wires;
    }
    var w := new Wire(name, diagramType, v);
    r := wires[name := w];
  }

  /** Lines 151-154: add the wire, or else set the value of the one already there. */
  method SetWire(wires: map<string, Wire>, ghost values: map<string, WireValue>, name: string, v: WireValue, diagramType: DiagramType)
    returns (r: map<string, Wire>)
    requires WiresHold(wires, values, diagramType)
    modifies if name in wires then {wires[name]} else {}
    ensures WiresHold(r, values[name := v], diagramType)
    ensures forall k :: k in r ==> (k in wires && r[k] == wires[k]) || fresh(r[k])
  {
    if name in wires {
      wires[name].value := v;
      return wires;
    }
    var w := new Wire(name, diagramType, v);
    r := wires[name := w];
  }

  /** Lines 140-216 over the wire objects. */
  method ApplyArrow(wires: map<string, Wire>, infos: seq<GateInfo>, ghost values: map<string, WireValue>, arrow: Arrow, diagramType: DiagramType)
    returns (failure: Option<string>, wires': map<string, Wire>, infos': seq<GateInfo>)
    requires WiresHold(wires, values, diagramType)
    modifies wires.Values
    ensures var next := ArrowStep(Scan(values, infos), arrow, diagramType, Intended);
      (next.Fail? ==> failure == Some(next.error)) &&
      (next.Ok? ==> failure.None? && WiresHold(wires', next.value.values, diagramType) && infos' == next.value.infos)
    ensures forall k :: k in wires' ==> (k in wires && wires'[k] == wires[k]) || fresh(wires'[k])
  {
    wires' := wires;
    infos' := infos;
    if |arrow.left| == 1 && IsNumeric(arrow.left[0]) {
      wires' := SetWire(wires, values, arrow.right, ValueFromString(arrow.left[0], diagramType), diagramType);
      return None, wires', infos';
    }
    var gate := ParseArrow(arrow, Intended);
    if gate.Fail? {
      return Some(gate.error), wires', infos';
    }
    var (info, second) := gate.value;
    infos' := infos + [info];
    wires' := AddGateWires(wires, values, info, second, diagramType);
    failure := None;
  }

  /** Lines 172-208: create the wires of a recorded gate that do not exist yet. */
  method AddGateWires(wires: map<string, Wire>, ghost values: map<string, WireValue>, info: GateInfo, second: string, diagramType: DiagramType)
    returns (wires': map<string, Wire>)
    requires WiresHold(wires, values, diagramType)
    ensures WiresHold(wires', AddGate(Scan(values, []), info, second, diagramType).values, diagramType)
    ensures forall k :: k in wires' ==> (k in wires && wires'[k] == wires[k]) || fresh(wires'[k])
  {
    ghost var withFirst := TryAdd(values, info.input1, ValueFromString(info.input1, diagramType));
    wires' := AddWire(wires, values, info.input1, ValueFromString(info.input1, diagramType), diagramType);
    ghost var withSecond := withFirst;
    if IsBinary(info.gateType) {
      withSecond := TryAdd(withFirst, info.input2, ValueFromString(second, diagramType));
      wires' := AddWire(wires', withFirst, info.input2, ValueFromString(second, diagramType), diagramType);
    }
    wires' := AddWire(wires', withSecond, info.output, ValueFromString(info.output, diagramType), diagramType);
  }

  /** Lines 133-216: one description line, first its ':' part, then its "->" part. */
  method ApplyLine(wires: map<string, Wire>, infos: seq<GateInfo>, ghost values: map<string, WireValue>, line: DiagramLine, diagramType: DiagramType)
    returns (failure: Option<string>, wires': map<string, Wire>, infos': seq<GateInfo>)
    requires WiresHold(wires, values, diagramType)
    modifies wires.Values
    ensures var next := LineStep(Scan(values, infos), line, diagramType, Intended);
      (next.Fail? ==> failure == Some(next.error)) &&
      (next.Ok? ==> failure.None? && WiresHold(wires', next.value.values, diagramType) && infos' == next.value.infos)
    ensures forall k :: k in wires' ==> (k in wires && wires'[k] == wires[k]) || fresh(wires'[k])
  {
    wires' := wires;
    infos' := infos;
    ghost var mid := values;
    if line.colon.Some? {
      var parts := line.colon.value;
      if |parts| < 2 {
        return Some(IndexOutOfRange), wires', infos';
      }
      mid := TryAdd(values, parts[1], ValueFromString(parts[0], diagramType));
      wires' := AddWire(wires, values, parts[1], ValueFromString(parts[0], diagramType), diagramType);
    }
    if line.arrow.Some? {
      failure, wires', infos' := ApplyArrow(wires', infos, mid, line.arrow.value, diagramType);
    } else {
      failure := None;
    }
  }

  /** Lines 132-217: the first pass, over every line. */
  method ReadLines(lines: seq<DiagramLine>, diagramType: DiagramType)
    returns (failure: Option<string>, wires: map<string, Wire>, infos: seq<GateInfo>)
    ensures var scan := ScanLines(lines, diagramType, Intended);
      (scan.Fail? ==> failure == Some(scan.error)) &&
      (scan.Ok? ==> failure.None? && WiresHold(wires, scan.value.values, diagramType) && infos == scan.value.infos)
    ensures forall k :: k in wires ==> fresh(wires[k])
  {
    wires := map[];
    infos := [];
    ghost var scan := Scan(map[], []);
    var i := 0;
    while i < |lines|
      invariant 0 <= i <= |lines|
      invariant ScanLines(lines, diagramType, Intended) == ScanFrom(scan, lines[i..], diagramType, Intended)
      invariant infos == scan.infos
      invariant WiresHold(wires, scan.values, diagramType)
      invariant forall k :: k in wires ==> fresh(wires[k])
    {
      failure, wires, infos := ApplyLine(wires, infos, scan.values, lines[i], diagramType);
      if failure.Some? {
        return;
      }
      scan := LineStep(scan, lines[i], diagramType, Intended).value;
      assert lines[i..][1..] == lines[i + 1..];
      i := i + 1;
    }
    failure := None;
  }

  /** Lines 212-218 for one gate: the constructor its kind calls. */
  method BuildGate(id: int, info: GateInfo, wires: map<string, Wire>, shiftSize: int) returns (gate: Gate)
    requires info.input1 in wires && info.output in wires && (IsBinary(info.gateType) ==> info.input2 in wires)
    requires ShiftOf(info) == Ok(shiftSize)
    ensures fresh(gate) && GateBuilt(gate, id, info, wires)
  {
    var built: Result<Gate>;
    if IsUnary(info.gateType) {
      built := Gate.Unary(id, info.gateType, wires[info.input1], wires[info.output]);
    } else if IsShift(info.gateType) {
      built := Gate.Shift(id, info.gateType, wires[info.input1], wires[info.output], shiftSize);
    } else {
      built := Gate.Binary(id, info.gateType, wires[info.input1], wires[info.input2], wires[info.output]);
    }
    gate := built.value;
  }

  /** Lines 210-219: the second pass, building the gates in order and numbering them from 0. */
  method BuildGates(wires: map<string, Wire>, infos: seq<GateInfo>, ghost values: map<string, WireValue>, diagramType: DiagramType)
    returns (failure: Option<string>, gates: seq<Gate>)
    requires WiresHold(wires, values, diagramType) && Known(Scan(values, infos))
    ensures failure.None? <==> AllShiftsParse(infos)
    ensures failure.None? ==> (|gates| == |infos| &&
                               forall t :: 0 <= t < |gates| ==> fresh(gates[t]) && GateBuilt(gates[t], t, infos[t], wires))
  {
    gates := [];
    while |gates| < |infos|
      invariant |gates| <= |infos|
      invariant forall t :: 0 <= t < |gates| ==> ShiftOf(infos[t]).Ok?
      invariant forall t :: 0 <= t < |gates| ==> fresh(gates[t]) && GateBuilt(gates[t], t, infos[t], wires)
    {
      var id := |gates|;
      var shift := ShiftOf(infos[id]);
      if shift.Fail? {
        return Some(shift.error), gates;
      }
      var gate := BuildGate(id, infos[id], wires, shift.value);
      gates := gates + [gate];
    }
    failure := None;
  }

  /**
   * Lines 128-224: read every line, creating each wire once, then build the gates in order,
   * numbering them from 0. The first exception ends the build.
   */
  method CreateDiagram(lines: seq<DiagramLine>, diagramType: DiagramType) returns (r: Result<(map<string, Wire>, seq<Gate>)>)
    ensures var scan := ScanLines(lines, diagramType, Intended);
      (scan.Fail? ==> r == Fail(scan.error)) &&
      (scan.Ok? ==> (r.Ok? <==> AllShiftsParse(scan.value.infos)))
    ensures r.Ok? ==>
      var scan := ScanLines(lines, diagramType, Intended).value;
      var (wires, gates) := r.value;
      WiresHold(wires, scan.values, diagramType) && (forall k :: k in wires ==> fresh(wires[k])) &&
      |gates| == |scan.infos| &&
      (forall t :: 0 <= t < |gates| ==> fresh(gates[t]) && GateBuilt(gates[t], t, scan.infos[t], wires))
  {
    var failure, wires, infos := ReadLines(lines, diagramType);
    if failure.Some? {
      return Fail(failure.value);
    }
    ghost var scan := ScanLines(lines, diagramType, Intended).value;
    ScanKnown(Scan(map[], []), lines, diagramType, Intended);
    var gates;
    failure, gates := BuildGates(wires, infos, scan.values, diagramType);
    if failure.Some? {
      return Fail(failure.value);
    }
    r := Ok((wires, gates));
  }
}
