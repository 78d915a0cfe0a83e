/**
 * One cell of a grid: a fixed position and four independent payloads
 * (text, 64-bit integer, flag, arbitrary object) that callers update in place.
 */
module Cells {
  import opened PointExtensions
  import opened Wrappers
  import CSharpInt
  import Text

  /** Which payload `ToString` renders; `Undefined` stands for an enum value outside the four names. */
  datatype ContentType = StringContent | LongContent | BoolContent | ObjectContent | Undefined

  /**
   * The four payloads of a cell as a value. The object payload is represented by the text
   * its own `ToString()` yields (`None` for a null object or a null text).
   */
  datatype CellValue = CellValue(str: string, long: int, flag: bool, obj: Option<string>)

  /** The argument of one of the four `SetAllCells` overloads: which payload, and its new value. */
  datatype Payload = TextPayload(text: string) | LongPayload(number: int) | BoolPayload(flag: bool) | ObjectPayload(obj: Option<string>)

  /** The payloads of a cell after the payload `p` names is overwritten with `p`'s value. */
  function WithPayload(v: CellValue, p: Payload): (r: CellValue)
    ensures p.TextPayload? ==> r == CellValue(p.text, v.long, v.flag, v.obj)
    ensures p.LongPayload? ==> r == CellValue(v.str, p.number, v.flag, v.obj)
    ensures p.BoolPayload? ==> r == CellValue(v.str, v.long, p.flag, v.obj)
    ensures p.ObjectPayload? ==> r == CellValue(v.str, v.long, v.flag, p.obj)
  {
    match p
    case TextPayload(t) => v.(str := t)
    case LongPayload(n) => v.(long := n)
    case BoolPayload(b) => v.(flag := b)
    case ObjectPayload(o) => v.(obj := o)
  }

  /** Overwriting a payload twice is overwriting it once, and the last of two writes to the same payload wins. */
  lemma WithPayloadIdempotent(v: CellValue, p: Payload, q: Payload)
    ensures WithPayload(WithPayload(v, p), p) == WithPayload(v, p)
    ensures (p.TextPayload? && q.TextPayload?) || (p.LongPayload? && q.LongPayload?) ||
            (p.BoolPayload? && q.BoolPayload?) || (p.ObjectPayload? && q.ObjectPayload?)
            ==> WithPayload(WithPayload(v, p), q) == WithPayload(v, q)
  {
  }

  /** Payloads of a freshly built cell before its constructor sets one of them. */
  const EmptyValue: CellValue := CellValue("", 0, false, None)

  class CellInfo {
    const Position: Point
    var StringVal: string
    var LongVal: int
    var BoolVal: bool
    var ObjectVal: Option<string>

    /** All four payloads, as a value. */
    function Value(): CellValue
      reads this
    {
      CellValue(StringVal, LongVal, BoolVal, ObjectVal)
    }

    /** A real cell: neither coordinate is `int.MinValue`, the coordinate of the out-of-range sentinel. */
    predicate IsValid()
    {
      Position.x != CSharpInt.INT_MIN && Position.y != CSharpInt.INT_MIN
    }

    /** `new CellInfo(position, stringVal)`: only the text payload is set. */
    constructor FromString(position: Point, stringVal: string)
      ensures Position == position && Value() == EmptyValue.(str := stringVal)
    {
      Position := position;
      StringVal, LongVal, BoolVal, ObjectVal := stringVal, 0, false, None;
    }

    /** `new CellInfo(position, longVal)`: only the integer payload is set. */
    constructor FromLong(position: Point, longVal: int)
      ensures Position == position && Value() == EmptyValue.(long := longVal)
    {
      Position := position;
      StringVal, LongVal, BoolVal, ObjectVal := "", longVal, false, None;
    }

    /** `new CellInfo(position, boolVal)`: only the flag is set. */
    constructor FromBool(position: Point, boolVal: bool)
      ensures Position == position && Value() == EmptyValue.(flag := boolVal)
    {
      Position := position;
      StringVal, LongVal, BoolVal, ObjectVal := "", 0, boolVal, None;
    }

    /** `new CellInfo(position, cellInfo)`: a new cell at `position` with the payloads of another cell. */
    constructor Copy(position: Point, other: CellInfo)
      ensures Position == position && Value() == other.Value()
    {
      Position := position;
      StringVal, LongVal, BoolVal, ObjectVal := other.StringVal, other.LongVal, other.BoolVal, other.ObjectVal;
    }

    /**
     * `ToString(contentType)`: the text payload, the decimal integer, "1"/"0" for the flag, the
     * object's text or "" for no object, and "X" for an undefined content type.
     */
    function ToString(contentType: ContentType): (r: string)
      reads this
      ensures contentType == StringContent ==> r == StringVal
      ensures contentType == LongContent ==> Text.ParseInt(r) == Some(LongVal)
      ensures contentType == BoolContent ==> |r| == 1 && (BoolVal <==> r == "1")
      ensures contentType == ObjectContent ==> (ObjectVal.Some? ==> r == ObjectVal.value) && (ObjectVal.None? ==> r == "")
    {
      match contentType
      case StringContent => StringVal
      case LongContent => Text.ParseIntToString(LongVal); Text.IntToString(LongVal)
      case BoolContent => if BoolVal then "1" else "0"
      case ObjectContent => ObjectVal.GetOr("")
      case Undefined => "X"
    }

    /** `Clone()`: a distinct cell with the same position and payloads. */
    method Clone() returns (c: CellInfo)
      ensures fresh(c) && c.Position == Position && c.Value() == Value()
    {
      c := new CellInfo.FromString(Position, StringVal);
      c.LongVal, c.BoolVal, c.ObjectVal := LongVal, BoolVal, ObjectVal;
    }

    /** The assignment `cell.StringVal = ...` (or `LongVal`, `BoolVal`, `ObjectVal`) that `p` stands for. */
    method SetPayload(p: Payload)
      modifies this
      ensures Value() == WithPayload(old(Value()), p)
    {
      match p
      case TextPayload(t) => StringVal := t;
      case LongPayload(n) => LongVal := n;
      case BoolPayload(b) => BoolVal := b;
      case ObjectPayload(o) => ObjectVal := o;
    }

    /** `Set(cellInfo)`: copies the four payloads of another cell; the position stays. */
    method Set(other: CellInfo)
      modifies this
      ensures Value() == old(other.Value())
    {
      StringVal, LongVal, BoolVal, ObjectVal := other.StringVal, other.LongVal, other.BoolVal, other.ObjectVal;
    }
  }

  /** The cell `QuickMatrix.Cell` hands out for a position off the grid: invalid, empty text. */
  method NewSentinel() returns (c: CellInfo)
    ensures fresh(c) && !c.IsValid() && c.Value() == EmptyValue
  {
    c := new CellInfo.FromString(Point(CSharpInt.INT_MIN, CSharpInt.INT_MIN), "");
  }
}
