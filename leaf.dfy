/** A sample of the leaf decoder the engine hands slices, maps, strings and
    numbers to (the standard library's permissive `json.Unmarshal`). The
    engine treats it as a parameter; this instance exists so that the
    concrete cases in module Scenarios can be computed. It covers the kinds
    those cases use and is permissive the way the standard decoder is:
    unknown object keys are dropped and `null` leaves the value alone. */
module SampleLeaf {
  import opened JsonTree
  import opened Shapes
  import opened Fields
  import opened Strict

  /** The Go type a mismatch names as expected. `Int`, `Uint` and `Float`
      stand for their widest width. */
  function GoType(s: Shape): string
  {
    match s
    case Record(_) => "struct"
    case Ptr(t) => "*" + GoType(t)
    case Slice(e) => "[]" + GoType(e)
    case Map => "map"
    case Str => "string"
    case Int => "int64"
    case Uint => "uint64"
    case Float => "float64"
    case Other => "other"
  }

  /** True when `n` has no fractional part. */
  predicate Integral(n: real)
  {
    n == n.Floor as real
  }

  /** The sample leaf decoder: a syntax error for a malformed document,
      otherwise a permissive decoding of `j` into `v`. */
  function Std(s: Shape, v: Value, j: Json): LeafResult
  {
    if Invalid(j) then Failure("invalid character") else StdValue(s, v, j)
  }

  /** Permissive decoding of a well-formed fragment. */
  function StdValue(s: Shape, v: Value, j: Json): LeafResult
    decreases s, 2
  {
    if j.JNull? then
      // null sets pointers, slices and maps to nil and leaves the rest
      if s.Ptr? then Decoded(VNil)
      else if s.Slice? then Decoded(VSlice([]))
      else if s.Map? then Decoded(VMap(map[]))
      else Decoded(v)
    else match s
      case Ptr(t) =>
        var cur := if v.VPtr? then v.target else Zero(t);
        (match StdValue(t, cur, j)
         case Decoded(w) => Decoded(VPtr(w))
         case Mismatch(got, expected, w) => Mismatch(got, expected, VPtr(w))
         case Failure(m) => Failure(m))
      case Record(fs) =>
        if j.JObj? then
          var cur := if v.VRecord? && |v.fields| == |fs| then v.fields else ZeroFields(fs, |fs|);
          StdFields(fs, cur, RawMap(j.members), |fs|)
        else Mismatch(KindName(j), GoType(s), v)
      case Slice(e) =>
        if j.JArr? then StdItems(s, j.items, |j.items|)
        else Mismatch(KindName(j), GoType(s), v)
      case Str =>
        if j.JStr? then Decoded(VStr(j.s)) else Mismatch(KindName(j), GoType(s), v)
      case Int =>
        if j.JNum? && Integral(j.n) then Decoded(VInt(j.n.Floor))
        else Mismatch(KindName(j), GoType(s), v)
      case Uint =>
        if j.JNum? && Integral(j.n) && j.n >= 0.0 then Decoded(VUint(j.n.Floor))
        else Mismatch(KindName(j), GoType(s), v)
      case Float =>
        if j.JNum? then Decoded(VFloat(j.n)) else Mismatch(KindName(j), GoType(s), v)
      case Map => Failure("map values are not covered by the sample decoder")
      case Other => Failure("unsupported type")
  }

  /** The fields of a record decoded from the raw map, the first `n` of
      them; undeclared keys are dropped. The first mismatch is reported. */
  function StdFields(fs: seq<Field>, vals: seq<Value>, raw: map<string, Json>, n: nat): LeafResult
    requires n <= |fs| && |vals| == |fs|
    decreases Record(fs), 1, n
  {
    if n == 0 then Decoded(VRecord(vals))
    else
      match StdFields(fs, vals, raw, n - 1)
      case Failure(m) => Failure(m)
      case Decoded(r) => StdField(fs, raw, n - 1, r, None)
      case Mismatch(got, expected, r) => StdField(fs, raw, n - 1, r, Some((got, expected)))
  }

  datatype Option<T> = None | Some(value: T)

  /** Field `i` decoded into record `r`, keeping an earlier mismatch. */
  function StdField(fs: seq<Field>, raw: map<string, Json>, i: nat, r: Value,
                    earlier: Option<(string, string)>): LeafResult
    requires i < |fs|
    decreases Record(fs), 0
  {
    var name := JsonName(fs[i]);
    if !r.VRecord? || |r.fields| != |fs| then Failure("record")
    else if name !in raw then
      if earlier.Some? then Mismatch(earlier.value.0, earlier.value.1, r) else Decoded(r)
    else match StdValue(fs[i].shape, r.fields[i], raw[name])
      case Failure(m) => Failure(m)
      case Decoded(w) =>
        var r' := VRecord(r.fields[i := w]);
        if earlier.Some? then Mismatch(earlier.value.0, earlier.value.1, r') else Decoded(r')
      case Mismatch(got, expected, w) =>
        var r' := VRecord(r.fields[i := w]);
        if earlier.Some? then Mismatch(earlier.value.0, earlier.value.1, r') else Mismatch(got, expected, r')
  }

  /** The first `n` array items decoded as elements of the slice shape `s`,
      each from the zero element. */
  function StdItems(s: Shape, items: seq<Json>, n: nat): LeafResult
    requires s.Slice? && n <= |items|
    decreases s, 1, n
  {
    if n == 0 then Decoded(VSlice([]))
    else
      match StdItems(s, items, n - 1)
      case Failure(m) => Failure(m)
      case Decoded(acc) => StdItem(s, items[n - 1], acc, None)
      case Mismatch(got, expected, acc) => StdItem(s, items[n - 1], acc, Some((got, expected)))
  }

  /** One more array item appended to the decoded slice `acc`. */
  function StdItem(s: Shape, item: Json, acc: Value, earlier: Option<(string, string)>): LeafResult
    requires s.Slice?
    decreases s, 0
  {
    if !acc.VSlice? then Failure("slice")
    else match StdValue(s.elem, Zero(s.elem), item)
      case Failure(m) => Failure(m)
      case Decoded(w) =>
        var acc' := VSlice(acc.elems + [w]);
        if earlier.Some? then Mismatch(earlier.value.0, earlier.value.1, acc') else Decoded(acc')
      case Mismatch(got, expected, w) =>
        var acc' := VSlice(acc.elems + [w]);
        if earlier.Some? then Mismatch(earlier.value.0, earlier.value.1, acc') else Mismatch(got, expected, acc')
  }
}
