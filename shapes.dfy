/** The wire shapes the codec selects per type, and the runtime values of each
    shape. Which C++ type gets which shape is decided in module Classify. */
module Shapes {
  import opened Bytes

  datatype Option<+T> = None | Some(value: T)

  datatype Shape =
    | Pod(width: nat)              // a POD type: sizeof(T) raw bytes
    | Bool                         // bool: a POD of one byte, read back as a truth value
    | Text                         // std::string / std::string_view: count, then the chars
    | PodVector(elemWidth: nat)    // std::vector<POD>: count, then one raw block
    | Vector(elem: Shape)          // std::vector<non-POD>: count, then each element
    | Optional(inner: Shape)       // std::optional: flag, then the payload if present
    | Array(n: nat, elem: Shape)   // std::array<non-POD, N>: N elements, no count
    | Members(fields: seq<Shape>)  // a Trait with a members tuple: each member in order

  datatype Value =
    | PodV(bytes: seq<byte>)          // the object image of a POD value
    | BoolV(b: bool)
    | TextV(chars: seq<byte>)
    | PodVectorV(items: seq<seq<byte>>)
    | ListV(elems: seq<Value>)        // the elements of a Vector or an Array
    | NoneV
    | SomeV(inner: Value)
    | RecordV(fields: seq<Value>)     // member values in declared tuple order

  /** v is a value of a C++ type whose shape is s. Counts must fit a size_t. */
  predicate WellTyped(s: Shape, v: Value)
    decreases s
  {
    match s
    case Pod(w) => v.PodV? && |v.bytes| == w
    case Bool => v.BoolV?
    case Text => v.TextV? && |v.chars| < SizeTLimit
    case PodVector(w) =>
      && v.PodVectorV?
      && |v.items| < SizeTLimit
      && forall i | 0 <= i < |v.items| :: |v.items[i]| == w
    case Vector(e) =>
      && v.ListV?
      && |v.elems| < SizeTLimit
      && forall i | 0 <= i < |v.elems| :: WellTyped(e, v.elems[i])
    case Optional(e) => v.NoneV? || (v.SomeV? && WellTyped(e, v.inner))
    case Array(n, e) =>
      && v.ListV?
      && |v.elems| == n
      && forall i | 0 <= i < n :: WellTyped(e, v.elems[i])
    case Members(fs) =>
      && v.RecordV?
      && |v.fields| == |fs|
      && forall i | 0 <= i < |fs| :: WellTyped(fs[i], v.fields[i])
  }
}
