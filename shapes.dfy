/** Target shapes (the closed set of Go kinds the engine dispatches on, in
    place of reflection) and the destination values decoded into them. */
module Shapes {

  /** The kind of a destination. `Other` stands for every kind the engine
      rejects (bool, int8, int16, uint8, uint16, interfaces, ...). */
  datatype Shape =
    | Record(fields: seq<Field>)
    | Ptr(target: Shape)
    | Slice(elem: Shape)
    | Map
    | Str
    | Int
    | Uint
    | Float
    | Other

  /** A struct field: its Go identifier, the raw text of its `json` tag
      (empty when there is none) and its declared shape. */
  datatype Field = Field(ident: string, tag: string, shape: Shape)

  /** A destination value. A pointer is `VNil` or `VPtr`; slices and maps
      keep their elements; numbers are opaque. */
  datatype Value =
    | VRecord(fields: seq<Value>)
    | VNil
    | VPtr(target: Value)
    | VSlice(elems: seq<Value>)
    | VMap(entries: map<string, Value>)
    | VStr(s: string)
    | VInt(i: int)
    | VUint(u: nat)
    | VFloat(f: real)
    | VOther

  /** The value a shape holds. */
  predicate Conforms(v: Value, s: Shape)
  {
    match s
    case Record(fs) =>
      v.VRecord? && |v.fields| == |fs| &&
      forall i :: 0 <= i < |fs| ==> Conforms(v.fields[i], fs[i].shape)
    case Ptr(t) => v.VNil? || (v.VPtr? && Conforms(v.target, t))
    case Slice(e) => v.VSlice? && forall i :: 0 <= i < |v.elems| ==> Conforms(v.elems[i], e)
    case Map => v.VMap?
    case Str => v.VStr?
    case Int => v.VInt?
    case Uint => v.VUint?
    case Float => v.VFloat?
    case Other => v.VOther?
  }

  /** The zero value of a shape (`reflect.Zero`): nil pointers, nil slices
      and maps (one value with the empty slice and the empty map here),
      empty strings, zero numbers, and records of zeros. */
  function Zero(s: Shape): (z: Value)
    ensures Conforms(z, s)
    ensures s.Ptr? ==> z == VNil
    decreases s, 1
  {
    match s
    case Record(fs) => VRecord(ZeroFields(fs, |fs|))
    case Ptr(_) => VNil
    case Slice(_) => VSlice([])
    case Map => VMap(map[])
    case Str => VStr("")
    case Int => VInt(0)
    case Uint => VUint(0)
    case Float => VFloat(0.0)
    case Other => VOther
  }

  /** The zero values of the first `n` fields of a record, in order. */
  function ZeroFields(fs: seq<Field>, n: nat): (zs: seq<Value>)
    requires n <= |fs|
    ensures |zs| == n && forall i :: 0 <= i < n ==> Conforms(zs[i], fs[i].shape)
    decreases Record(fs), 0, n
  {
    if n == 0 then [] else ZeroFields(fs, n - 1) + [Zero(fs[n - 1].shape)]
  }

  /** Field `i` of a zero record is the zero value of field `i`'s shape. */
  lemma {:induction false} ZeroFieldsAt(fs: seq<Field>, n: nat, i: nat)
    requires i < n <= |fs|
    ensures ZeroFields(fs, n)[i] == Zero(fs[i].shape)
  {
    if i < n - 1 {
      ZeroFieldsAt(fs, n - 1, i);
    }
  }

  /** A shape with a pointer to a pointer as a field: the engine allocates only
      the outer one and then meets a nil pointer it cannot dereference. */
  predicate DoublePointer(s: Shape)
  {
    s.Ptr? && s.target.Ptr?
  }

  /** Every record reachable from the shape has no pointer-to-pointer field. */
  predicate WellFormed(s: Shape)
  {
    match s
    case Record(fs) =>
      forall i :: 0 <= i < |fs| ==> !DoublePointer(fs[i].shape) && WellFormed(fs[i].shape)
    case Ptr(t) => WellFormed(t)
    case _ => true
  }

  /** The shape the engine dispatches on: the pointee of a pointer, or the
      shape itself. Storage the engine decodes into has at most one pointer
      layer (see `DoublePointer`), so this is the kind left after the source
      removes every pointer. */
  function Pointee(s: Shape): (k: Shape)
    ensures !DoublePointer(s) ==> !k.Ptr?
  {
    if s.Ptr? then s.target else s
  }
}
