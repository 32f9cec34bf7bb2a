/** The engine of unmarshal.go as the source runs it: loops that build the
    error list step by step, recursion through `unmarshal`, and the scan of
    the raw map in an order the language leaves unspecified. Each method is
    proved to compute the destination given by module Strict and the same
    errors up to that order. */
module Engine {
  import opened JsonTree
  import opened Shapes
  import opened Fields
  import opened StrictErrors
  import opened Strict

  /** `Unmarshal`: reject anything but a non-nil pointer to a struct with a
      single error, otherwise decode the struct at the empty path. */
  method Unmarshal(s: Shape, dest: Value, j: Json, leaf: LeafDecoder) returns (r: Value, errs: Errors)
    requires WellFormed(s) && Conforms(dest, s)
    ensures r == Decode(s, dest, j, leaf).value
    ensures multiset(errs) == multiset(Decode(s, dest, j, leaf).errs)
    ensures (!s.Ptr? || dest.VNil? || !s.target.Record?) ==> r == dest && errs == [Generic(InvalidUnmarshal)]
  {
    errs := [];
    if !s.Ptr? {
      return dest, WithErr(errs, InvalidUnmarshal);
    }
    if dest.VNil? || !s.target.Record? {
      return dest, WithErr(errs, InvalidUnmarshal);
    }
    var inner;
    inner, errs := UnmarshalValue(s.target, dest.target, j, "", leaf);
    r := VPtr(inner);
  }

  /** `unmarshal`: follow the pointers down to the kind, then dispatch. */
  method UnmarshalValue(s: Shape, v: Value, j: Json, path: string, leaf: LeafDecoder)
    returns (r: Value, errs: Errors)
    requires Target(s, v)
    ensures r == DecodeValue(s, v, j, path, leaf).value
    ensures multiset(errs) == multiset(DecodeValue(s, v, j, path, leaf).errs)
    decreases s, 3
  {
    var k := s;
    while k.Ptr?
      invariant k == s || (s.Ptr? && k == s.target)
      decreases k
    {
      k := k.target;
    }
    errs := [];
    if k.Record? {
      if s.Ptr? {
        var inner;
        inner, errs := UnmarshalStruct(k.fields, v.target, j, path, leaf);
        r := VPtr(inner);
      } else {
        r, errs := UnmarshalStruct(k.fields, v, j, path, leaf);
      }
    } else if k.Slice? || k.Map? || k.Str? || k.Int? || k.Uint? || k.Float? {
      match leaf(s, v, j) {
        case Decoded(w) => r := w;
        case Mismatch(got, expected, w) => r, errs := w, WithInvalidType(errs, path, got, expected);
        case Failure(m) => r, errs := v, WithErr(errs, Decoder(m));
      }
    } else {
      r, errs := v, WithErr(errs, UnsupportedType);
    }
  }

  /** `unmarshalStruct`: parse the raw map, decode the declared fields in
      order while collecting their wire names, then report the input keys
      no field declares. */
  method UnmarshalStruct(fs: seq<Field>, rec: Value, j: Json, path: string, leaf: LeafDecoder)
    returns (r: Value, errs: Errors)
    requires StructTarget(fs, rec)
    ensures r == DecodeStruct(fs, rec, j, path, leaf).value
    ensures multiset(errs) == multiset(DecodeStruct(fs, rec, j, path, leaf).errs)
    decreases Record(fs), 2
  {
    errs := [];
    match ParseObject(j) {
      case SyntaxError =>
        return rec, WithErr(errs, Syntax);
      case NotAnObject(got) =>
        return rec, WithInvalidType(errs, path, got, RawMapType);
      case Parsed(ms) =>
        var raw := RawMap(ms);
        var vals, fields;
        vals, errs, fields := UnmarshalFields(fs, rec.fields, raw, path, leaf);
        errs := ReportNotAllowed(ms, fields, path, errs);
        r := VRecord(vals);
    }
  }

  /** The loop over the declared fields of `unmarshalStruct`, in order,
      collecting the wire names it has seen. */
  method UnmarshalFields(fs: seq<Field>, init: seq<Value>, raw: map<string, Json>, path: string,
                         leaf: LeafDecoder)
    returns (vals: seq<Value>, errs: Errors, fields: set<string>)
    requires Slots(fs, init)
    ensures Agrees(vals, errs, FieldsUpTo(fs, init, raw, path, leaf, |fs|))
    ensures fields == DeclaredNames(fs)
    decreases Record(fs), 1, |fs| + 1
  {
    vals, errs, fields := init, [], {};
    var i := 0;
    while i < |fs|
      invariant 0 <= i <= |fs|
      invariant fields == NamesUpTo(fs, i)
      invariant Agrees(vals, errs, FieldsUpTo(fs, init, raw, path, leaf, i))
    {
      var name;
      vals, errs, name := NextField(fs, init, raw, path, leaf, i, vals, errs);
      fields := fields + {name};
      i := i + 1;
    }
  }

  /** The body of the field loop for field `i`: its slot still holds its
      initial value, and decoding it takes the loop one field further. */
  method NextField(fs: seq<Field>, init: seq<Value>, raw: map<string, Json>, path: string,
                   leaf: LeafDecoder, i: nat, vals: seq<Value>, errs: Errors)
    returns (vals2: seq<Value>, errs2: Errors, name: string)
    requires Slots(fs, init) && i < |fs|
    requires Agrees(vals, errs, FieldsUpTo(fs, init, raw, path, leaf, i))
    ensures Agrees(vals2, errs2, FieldsUpTo(fs, init, raw, path, leaf, i + 1))
    ensures name == JsonName(fs[i])
    decreases Record(fs), 1, |fs| - i
  {
    FieldReady(fs, init, raw, path, leaf, i);
    var w;
    w, name, errs2 := UnmarshalField(fs[i], vals[i], raw, path, leaf, errs);
    FieldsLoopStep(fs, init, raw, path, leaf, i, vals, errs, w, errs2);
    vals2 := vals[i := w];
  }

  /** One pass of the field loop: derive the field's definition, report it
      when missing and required, otherwise allocate it when it is a pointer,
      decode into it, and report it when it came out empty but is required.
      The errors are appended to `acc`; `name` is the wire name recorded. */
  method UnmarshalField(f: Field, v: Value, raw: map<string, Json>, path: string,
                        leaf: LeafDecoder, acc: Errors)
    returns (w: Value, name: string, errs: Errors)
    requires FieldTarget(f, v)
    ensures name == JsonName(f)
    ensures w == DecodeField(f, v, raw, path, leaf).value
    ensures multiset(errs) == multiset(acc) + multiset(DecodeField(f, v, raw, path, leaf).errs)
    decreases f.shape, 4
  {
    var def := Definition(f);
    name := def.name;
    errs := acc;
    if name !in raw {
      AbsentField(f, v, raw, path, leaf);
      if def.required {
        errs := WithRequired(errs, FieldPath(path, name));
      }
      return v, name, errs;
    }
    PresentField(f, v, raw, path, leaf);
    var fv := v;
    if f.shape.Ptr? {
      fv := VPtr(Zero(f.shape.target));
    }
    var es;
    w, es := UnmarshalValue(f.shape, fv, raw[name], FieldPath(path, name), leaf);
    if es != [] {
      errs := errs + es;
    } else if def.required && IsEmpty(w) {
      errs := WithRequired(errs, name);
    }
  }

  /** The scan of the raw map: each key, taken in an order the language
      leaves open, is reported NotAllowed at its dotted path unless a field
      declared it. */
  method ReportNotAllowed(ms: seq<Member>, fields: set<string>, path: string, acc: Errors)
    returns (errs: Errors)
    ensures |errs| >= |acc| && errs[..|acc|] == acc
    ensures multiset(errs[|acc|..]) == multiset(NotAllowedErrors(path, UnknownKeys(ms, fields)))
    ensures multiset(errs) == multiset(acc) + multiset(NotAllowedErrors(path, UnknownKeys(ms, fields)))
  {
    var remaining := RawMap(ms).Keys;
    ghost var keys := remaining;
    ghost var unknown: seq<string> := [];
    errs := acc;
    while remaining != {}
      invariant remaining <= keys
      invariant forall k :: k in unknown <==> k in keys && k !in remaining && k !in fields
      invariant Distinct(unknown)
      invariant errs == acc + NotAllowedErrors(path, unknown)
      decreases remaining
    {
      var name :| name in remaining;
      if name !in fields {
        NotAllowedSnoc(acc, path, unknown, name);
        DistinctSnoc(unknown, name);
        errs := WithNotAllowed(errs, FieldPath(path, name));
        unknown := unknown + [name];
      }
      remaining := remaining - {name};
    }
    RawMapKeys(ms);
    UnknownKeysMembers(ms, fields);
    SameKeysSameErrors(path, unknown, UnknownKeys(ms, fields));
    assert errs[|acc|..] == NotAllowedErrors(path, unknown);
  }
}
