/**
 * The PHP values the serializer is given, with the identity information the
 * engine keeps and reflection would report: which storage cell an array
 * entry lives in, which instance an object is, and an explicit list of
 * property descriptors in place of ReflectionObject.
 */
module Values {
  import opened Text

  /** PHP integers are 64-bit; larger literals are already floats. */
  type Int64 = i: int | -0x8000_0000_0000_0000 <= i < 0x8000_0000_0000_0000

  /** A float's decimal rendering never contains the format's terminator. */
  type FloatText = t: Bytes | forall i | 0 <= i < |t| :: t[i] != ';'

  /** A PHP float. A finite float carries the text PHP renders for it under
      the `serialize_precision` setting; that rendering is not modelled. */
  datatype Float = PosInf | NegInf | NaN | Finite(text: FloatText)

  /** PHP array keys are integers or strings. */
  datatype Key = IntKey(i: Int64) | StrKey(s: Bytes)

  datatype Visibility = Public | Protected | Private

  /** What a property slot of an object holds: the object itself (the one
      cycle a value graph may have here), or another value. */
  datatype Member = SelfRef | Holds(v: Value)

  /** One ReflectionProperty together with the value it reads from the
      object being encoded. */
  datatype Property = Property(
    name: Bytes,
    visibility: Visibility,
    isStatic: bool,
    declaringClass: Bytes,
    value: Member)

  /** What a `__sleep` method returned. */
  datatype SleepResult = SleepNames(names: seq<Bytes>) | NotAnArray

  /** An object: its instance id, its class name, the properties reflection
      reports for its class (own ones, inherited non-private ones and dynamic
      ones), the properties reflection reports for its parent class (empty
      when there is none), the string its `Serializable::serialize()`
      returns when the class implements Serializable, and what `__sleep()`
      returns when the class has that method. */
  datatype Object = Object(
    id: nat,
    className: Bytes,
    properties: seq<Property>,
    parentProperties: seq<Property>,
    serializable: Option<Bytes>,
    sleep: Option<SleepResult>)

  /** An array entry: its key, the storage cell it occupies (two entries bound
      by reference with `&` share one cell) and the value in that cell. */
  datatype Entry = Entry(key: Key, cell: nat, value: Value)

  datatype Value =
    | Null
    | Bool(b: bool)
    | Int(i: Int64)
    | Float(f: Float)
    | Str(s: Bytes)
    | Arr(entries: seq<Entry>)
    | Obj(obj: Object)
    | Closure(closureId: nat)
    | Resource(resourceId: nat)

  /** Keys of a PHP array are pairwise distinct. */
  ghost predicate UniqueKeys(es: seq<Entry>) {
    forall i, j | 0 <= i < j < |es| :: es[i].key != es[j].key
  }

  /** One storage cell holds one value. */
  ghost predicate ConsistentCells(es: seq<Entry>) {
    forall i, j | 0 <= i < |es| && 0 <= j < |es| && es[i].cell == es[j].cell :: es[i].value == es[j].value
  }

  /** What every array the engine builds satisfies. */
  ghost predicate ValidArray(es: seq<Entry>) {
    UniqueKeys(es) && ConsistentCells(es)
  }

  /** The text PHP renders for 0.0 or -0.0. */
  predicate IsZeroText(t: Bytes) {
    t == "0" || t == "-0"
  }

  /** `===` on floats: equal values, with 0.0 and -0.0 equal; NaN equals
      nothing. */
  function FloatIdentical(x: Float, y: Float): bool {
    match (x, y)
    case (PosInf, PosInf) => true
    case (NegInf, NegInf) => true
    case (Finite(s), Finite(t)) => s == t || (IsZeroText(s) && IsZeroText(t))
    case _ => false
  }

  /** The PHP type of a value, as `===` tells types apart. */
  function TypeOf(v: Value): nat {
    match v
    case Null => 0
    case Bool(_) => 1
    case Int(_) => 2
    case Float(_) => 3
    case Str(_) => 4
    case Arr(_) => 5
    case Obj(_) => 6
    case Closure(_) => 6
    case Resource(_) => 7
  }

  /** PHP's `===` on two values read from different places: same type and
      same value, with no type juggling; arrays compared entry by entry, in
      order; objects, closures and resources by instance; NaN is not
      identical to anything. `===` also accepts an array at once when both
      operands are the same array. Two reads of one storage cell are that
      case, and `References.ReadsIdentical` handles it. Two different cells
      holding one copy-on-write shared array (`$x = [NAN]; $a = [$x, $x];`)
      are that case too, where this function says false; no text depends on
      it, because the probe of `getReferencePosition` fails for different
      cells whatever `===` said. */
  function Identical(a: Value, b: Value): (r: bool)
    decreases a
    ensures r ==> TypeOf(a) == TypeOf(b)
    ensures a == Float(NaN) || b == Float(NaN) ==> !r
  {
    match (a, b)
    case (Null, Null) => true
    case (Bool(x), Bool(y)) => x == y
    case (Int(x), Int(y)) => x == y
    case (Float(x), Float(y)) => FloatIdentical(x, y)
    case (Str(x), Str(y)) => x == y
    case (Arr(xs), Arr(ys)) =>
      |xs| == |ys| &&
      forall i | 0 <= i < |xs| :: xs[i].key == ys[i].key && Identical(xs[i].value, ys[i].value)
    case (Obj(o), Obj(p)) => o.id == p.id
    case (Closure(x), Closure(y)) => x == y
    case (Resource(x), Resource(y)) => x == y
    case _ => false
  }

  /** `===` does not depend on the order of its operands. */
  lemma {:induction false} IdenticalSymmetric(a: Value, b: Value)
    ensures Identical(a, b) == Identical(b, a)
  {
    match (a, b)
    case (Arr(xs), Arr(ys)) =>
      if |xs| == |ys| {
        forall i | 0 <= i < |xs|
          ensures Identical(xs[i].value, ys[i].value) == Identical(ys[i].value, xs[i].value)
        {
          IdenticalSymmetric(xs[i].value, ys[i].value);
        }
      }
    case (Float(x), Float(y)) =>
      assert FloatIdentical(x, y) == FloatIdentical(y, x);
    case _ =>
  }
}
