/** What the decode-and-validate engine of unmarshal.go computes, stated as
    functions over the shape, the current destination value and the parsed
    input, together with the properties the engine promises. The methods
    in module Engine are proved against these functions. */
module Strict {
  import opened JsonTree
  import opened Shapes
  import opened Fields
  import opened StrictErrors

  /** What the standard library's decoder reports for a leaf: the new value,
      a type mismatch (with its description of the JSON value it met, the
      Go type it expected, and the value as far as it got), or another failure.
      On another failure the model keeps the destination as it was, although
      the standard decoder may have filled part of a slice or struct. */
  datatype LeafResult =
    | Decoded(value: Value)
    | Mismatch(got: string, expected: string, value: Value)
    | Failure(message: string)

  /** The leaf decoder is a collaborator, passed in: it receives the field's
      own shape (pointer included), its current value and the input fragment. */
  type LeafDecoder = (Shape, Value, Json) -> LeafResult

  /** A decoded destination and the errors found on the way. */
  datatype Outcome = Outcome(value: Value, errs: Errors)

  /** The Go type of the raw map, as a type mismatch names it. */
  const RawMapType := "map[string]json.RawMessage"

  /** The kinds handed to the leaf decoder. */
  predicate IsLeafKind(k: Shape)
  {
    k.Slice? || k.Map? || k.Str? || k.Int? || k.Uint? || k.Float?
  }

  /** The storage one `unmarshal` call decodes into: of its shape, not a
      pointer to a pointer, and already allocated when it is a pointer. */
  predicate Target(s: Shape, v: Value)
  {
    WellFormed(s) && !DoublePointer(s) && Conforms(v, s) && (s.Ptr? ==> v.VPtr?)
  }

  /** Storage for one field: of the field's shape, and not a pointer to a
      pointer. */
  predicate FieldTarget(f: Field, v: Value)
  {
    WellFormed(f.shape) && !DoublePointer(f.shape) && Conforms(v, f.shape)
  }

  /** Storage for a record of shape `fs`. */
  predicate StructTarget(fs: seq<Field>, rec: Value)
  {
    WellFormed(Record(fs)) && Conforms(rec, Record(fs))
  }

  /** Field slots of a record of shape `fs`, each storage of its field's shape. */
  predicate Slots(fs: seq<Field>, vals: seq<Value>)
  {
    |vals| == |fs| && forall i :: 0 <= i < |fs| ==> FieldTarget(fs[i], vals[i])
  }

  /** The wire names the first `n` fields declare. */
  function NamesUpTo(fs: seq<Field>, n: nat): set<string>
    requires n <= |fs|
  {
    if n == 0 then {} else NamesUpTo(fs, n - 1) + {JsonName(fs[n - 1])}
  }

  /** The wire names a record declares. */
  function DeclaredNames(fs: seq<Field>): set<string>
  {
    NamesUpTo(fs, |fs|)
  }

  /** A name is declared exactly when some field has it as its wire name. */
  lemma {:induction false} NamesUpToMembers(fs: seq<Field>, n: nat, k: string)
    requires n <= |fs|
    ensures k in NamesUpTo(fs, n) <==> exists i :: 0 <= i < n && JsonName(fs[i]) == k
  {
    if n > 0 {
      NamesUpToMembers(fs, n - 1, k);
      if JsonName(fs[n - 1]) == k {
        assert 0 <= n - 1 < n && JsonName(fs[n - 1]) == k;
      }
    }
  }

  /** One NotAllowed violation per key, in the order of the keys. */
  function NotAllowedErrors(path: string, ks: seq<string>): (errs: Errors)
    ensures |errs| == |ks|
  {
    if ks == [] then []
    else NotAllowedErrors(path, ks[..|ks| - 1]) + [NotAllowedError(FieldPath(path, ks[|ks| - 1]))]
  }

  /** `Unmarshal`: the destination must be a non-nil pointer to a struct;
      then the struct is decoded at the empty path. */
  function Decode(s: Shape, dest: Value, j: Json, leaf: LeafDecoder): (o: Outcome)
    requires WellFormed(s) && Conforms(dest, s)
    ensures (!s.Ptr? || dest.VNil? || !s.target.Record?) ==>
              o == Outcome(dest, [Generic(InvalidUnmarshal)])
    ensures s.Ptr? && dest.VPtr? && s.target.Record? ==>
              o.value.VPtr? && Outcome(o.value.target, o.errs) == DecodeStruct(s.target.fields, dest.target, j, "", leaf)
  {
    if !s.Ptr? then Outcome(dest, [Generic(InvalidUnmarshal)])
    else if dest.VNil? || !s.target.Record? then Outcome(dest, [Generic(InvalidUnmarshal)])
    else
      var o := DecodeValue(s.target, dest.target, j, "", leaf);
      Outcome(VPtr(o.value), o.errs)
  }

  /** `unmarshal`: dispatch on the kind left after removing the pointer
      layer. Records go to struct decoding, leaf kinds to the leaf decoder,
      anything else is an unsupported type. */
  function DecodeValue(s: Shape, v: Value, j: Json, path: string, leaf: LeafDecoder): (o: Outcome)
    requires Target(s, v)
    ensures Pointee(s).Record? ==> (if s.Ptr? then o.value.VPtr? else o.value.VRecord?)
    decreases s, 3
  {
    var k := Pointee(s);
    if k.Record? then
      if s.Ptr? then
        var o := DecodeStruct(k.fields, v.target, j, path, leaf);
        Outcome(VPtr(o.value), o.errs)
      else
        DecodeStruct(k.fields, v, j, path, leaf)
    else if IsLeafKind(k) then
      match leaf(s, v, j)
      case Decoded(w) => Outcome(w, [])
      case Mismatch(got, expected, w) => Outcome(w, [InvalidTypeError(path, expected, got)])
      case Failure(m) => Outcome(v, [Generic(Decoder(m))])
    else
      Outcome(v, [Generic(UnsupportedType)])
  }

  /** Below records, the leaf decoder has the last word: no error exactly
      when it decoded, one InvalidType at the path when the input had the
      wrong JSON type, its own error otherwise; a kind the engine does not
      decode keeps the value and reports UnsupportedType. */
  lemma LeafDispatch(s: Shape, v: Value, j: Json, path: string, leaf: LeafDecoder)
    requires Target(s, v) && !Pointee(s).Record?
    ensures var o := DecodeValue(s, v, j, path, leaf);
            var l := leaf(s, v, j);
            |o.errs| <= 1 &&
            (IsLeafKind(Pointee(s)) ==> (o.errs == [] <==> l.Decoded?) && (!l.Failure? ==> o.value == l.value)) &&
            (IsLeafKind(Pointee(s)) && l.Mismatch? ==> o.errs == [InvalidTypeError(path, l.expected, l.got)]) &&
            (IsLeafKind(Pointee(s)) && l.Failure? ==> o == Outcome(v, [Generic(Decoder(l.message))])) &&
            (!IsLeafKind(Pointee(s)) ==> o == Outcome(v, [Generic(UnsupportedType)]))
  {
  }

  /** A record, directly or behind a pointer, is decoded by the struct
      decoder at the same path: its errors are the struct's, and its value
      is the struct's, re-wrapped in the pointer. */
  lemma StructDispatch(s: Shape, v: Value, j: Json, path: string, leaf: LeafDecoder)
    requires Target(s, v) && Pointee(s).Record?
    ensures var o := DecodeValue(s, v, j, path, leaf);
            var d := DecodeStruct(Pointee(s).fields, if s.Ptr? then v.target else v, j, path, leaf);
            o.errs == d.errs && o.value == (if s.Ptr? then VPtr(d.value) else d.value)
  {
  }

  /** `unmarshalStruct`: read the input as a raw map, decode every declared
      field in order, then report every key no field declares. */
  function DecodeStruct(fs: seq<Field>, rec: Value, j: Json, path: string, leaf: LeafDecoder): (o: Outcome)
    requires WellFormed(Record(fs)) && Conforms(rec, Record(fs))
    ensures o.value.VRecord? && |o.value.fields| == |fs|
    ensures ParseObject(j).SyntaxError? ==> o == Outcome(rec, [Generic(Syntax)])
    ensures ParseObject(j).NotAnObject? ==>
              o == Outcome(rec, [InvalidTypeError(path, RawMapType, KindName(j))])
    decreases Record(fs), 2
  {
    match ParseObject(j)
    case SyntaxError => Outcome(rec, [Generic(Syntax)])
    case NotAnObject(got) => Outcome(rec, [InvalidTypeError(path, RawMapType, got)])
    case Parsed(ms) =>
      var st := FieldsUpTo(fs, rec.fields, RawMap(ms), path, leaf, |fs|);
      Outcome(VRecord(st.vals), st.errs + NotAllowedErrors(path, UnknownKeys(ms, DeclaredNames(fs))))
  }

  /** The field values and the errors after the first `n` declared fields. */
  datatype FieldsState = FieldsState(vals: seq<Value>, errs: Errors)

  /** The loop over the declared fields, after `n` of them. Field `n - 1`
      is decoded from its slot as the loop meets it, which still holds its
      initial value (see FieldsUntouched). */
  function FieldsUpTo(fs: seq<Field>, vals: seq<Value>, raw: map<string, Json>, path: string,
                      leaf: LeafDecoder, n: nat): (st: FieldsState)
    requires Slots(fs, vals) && n <= |fs|
    ensures |st.vals| == |fs|
    decreases Record(fs), 1, n
  {
    if n == 0 then FieldsState(vals, [])
    else
      var st := FieldsUpTo(fs, vals, raw, path, leaf, n - 1);
      var o := DecodeField(fs[n - 1], vals[n - 1], raw, path, leaf);
      FieldsState(st.vals[n - 1 := o.value], st.errs + o.errs)
  }

  /** One iteration of the field loop: a missing field is reported when
      required; a present one is allocated when it is a pointer, decoded,
      and, when that decoding found nothing wrong, checked for emptiness. */
  function DecodeField(f: Field, v: Value, raw: map<string, Json>, path: string,
                       leaf: LeafDecoder): (o: Outcome)
    requires FieldTarget(f, v)
    decreases f.shape, 4
  {
    var name := JsonName(f);
    var required := RequiredPolicy(f);
    if name !in raw then
      Outcome(v, if required then [RequiredError(FieldPath(path, name))] else [])
    else
      var fv := if f.shape.Ptr? then VPtr(Zero(f.shape.target)) else v;
      var o := DecodeValue(f.shape, fv, raw[name], FieldPath(path, name), leaf);
      if o.errs != [] then o
      else if required && IsEmpty(o.value) then Outcome(o.value, [RequiredError(name)])
      else o
  }

  // ---------------------------------------------------------------------
  // Properties of one field

  /** A missing field leaves its value alone and is reported, at its
      dotted path, exactly when it is required. */
  lemma AbsentField(f: Field, v: Value, raw: map<string, Json>, path: string, leaf: LeafDecoder)
    requires FieldTarget(f, v)
    requires JsonName(f) !in raw
    ensures DecodeField(f, v, raw, path, leaf).value == v
    ensures DecodeField(f, v, raw, path, leaf).errs ==
              if RequiredPolicy(f) then [RequiredError(FieldPath(path, JsonName(f)))] else []
  {
  }

  /** A present field of pointer shape is decoded into freshly allocated
      zero storage, whatever it held before. */
  lemma PresentPointerAllocated(f: Field, v: Value, raw: map<string, Json>, path: string, leaf: LeafDecoder)
    requires FieldTarget(f, v)
    requires JsonName(f) in raw && f.shape.Ptr?
    ensures var name := JsonName(f);
            DecodeField(f, v, raw, path, leaf) ==
              DecodeValue(f.shape, VPtr(Zero(f.shape.target)), raw[name], FieldPath(path, name), leaf)
  {
  }

  /** A present field: the errors of its decoding are kept and end the
      field; otherwise a required field left empty is reported under its
      bare wire name (not its dotted path, as the source does). */
  lemma PresentField(f: Field, v: Value, raw: map<string, Json>, path: string, leaf: LeafDecoder)
    requires FieldTarget(f, v)
    requires JsonName(f) in raw
    ensures var name := JsonName(f);
            var fv := if f.shape.Ptr? then VPtr(Zero(f.shape.target)) else v;
            var inner := DecodeValue(f.shape, fv, raw[name], FieldPath(path, name), leaf);
            var o := DecodeField(f, v, raw, path, leaf);
            o.value == inner.value &&
            (inner.errs != [] ==> o.errs == inner.errs) &&
            (inner.errs == [] ==>
               o.errs == if RequiredPolicy(f) && IsEmpty(inner.value) then [RequiredError(name)] else [])
  {
    var name := JsonName(f);
    var fv := if f.shape.Ptr? then VPtr(Zero(f.shape.target)) else v;
    var inner := DecodeValue(f.shape, fv, raw[name], FieldPath(path, name), leaf);
    assert DecodeField(f, v, raw, path, leaf) ==
      if inner.errs != [] then inner
      else if RequiredPolicy(f) && IsEmpty(inner.value) then Outcome(inner.value, [RequiredError(name)])
      else inner;
  }

  // ---------------------------------------------------------------------
  // Properties of the field loop

  /** A field only ever changes its own slot: the slots the loop has not
      reached yet still hold their initial values. */
  lemma {:induction false} FieldsUntouched(fs: seq<Field>, vals: seq<Value>, raw: map<string, Json>,
                                           path: string, leaf: LeafDecoder, n: nat, i: nat)
    requires Slots(fs, vals) && n <= i < |fs|
    ensures FieldsUpTo(fs, vals, raw, path, leaf, n).vals[i] == vals[i]
    decreases n
  {
    if n > 0 {
      FieldsUntouched(fs, vals, raw, path, leaf, n - 1, i);
    }
  }

  /** Every field's final value is its own decoding from its own initial
      value: no field is skipped and none disturbs another. */
  lemma {:induction false} FieldsValues(fs: seq<Field>, vals: seq<Value>, raw: map<string, Json>,
                                        path: string, leaf: LeafDecoder, n: nat, i: nat)
    requires Slots(fs, vals) && n <= |fs|
    requires i < n
    ensures FieldsUpTo(fs, vals, raw, path, leaf, n).vals[i] ==
              DecodeField(fs[i], vals[i], raw, path, leaf).value
    decreases n
  {
    var st := FieldsUpTo(fs, vals, raw, path, leaf, n - 1);
    var o := DecodeField(fs[n - 1], vals[n - 1], raw, path, leaf);
    assert FieldsUpTo(fs, vals, raw, path, leaf, n).vals == st.vals[n - 1 := o.value];
    if i < n - 1 {
      FieldsValues(fs, vals, raw, path, leaf, n - 1, i);
    }
  }

  /** The next field of the loop: its slot is untouched and is storage of
      its shape. */
  lemma FieldReady(fs: seq<Field>, init: seq<Value>, raw: map<string, Json>,
                   path: string, leaf: LeafDecoder, n: nat)
    requires Slots(fs, init) && n < |fs|
    ensures FieldsUpTo(fs, init, raw, path, leaf, n).vals[n] == init[n]
    ensures FieldTarget(fs[n], init[n])
  {
    FieldsUntouched(fs, init, raw, path, leaf, n, n);
  }

  /** The loop's values and errors match a state of the specification, the
      errors up to order. */
  predicate Agrees(vals: seq<Value>, errs: Errors, st: FieldsState)
  {
    vals == st.vals && multiset(errs) == multiset(st.errs)
  }

  /** The field loop after one more field. */
  lemma FieldsLoopStep(fs: seq<Field>, init: seq<Value>, raw: map<string, Json>, path: string,
                       leaf: LeafDecoder, n: nat, vals: seq<Value>, errs: Errors, w: Value, errs2: Errors)
    requires Slots(fs, init) && n < |fs|
    requires Agrees(vals, errs, FieldsUpTo(fs, init, raw, path, leaf, n))
    requires w == DecodeField(fs[n], init[n], raw, path, leaf).value
    requires multiset(errs2) == multiset(errs) + multiset(DecodeField(fs[n], init[n], raw, path, leaf).errs)
    ensures Agrees(vals[n := w], errs2, FieldsUpTo(fs, init, raw, path, leaf, n + 1))
  {
  }

  /** Every error of every field reaches the result: there is no
      short-circuit on the first error. */
  lemma {:induction false} FieldsErrorsKept(fs: seq<Field>, vals: seq<Value>, raw: map<string, Json>,
                                            path: string, leaf: LeafDecoder, n: nat, i: nat)
    requires Slots(fs, vals) && n <= |fs|
    requires i < n
    ensures multiset(DecodeField(fs[i], vals[i], raw, path, leaf).errs) <=
              multiset(FieldsUpTo(fs, vals, raw, path, leaf, n).errs)
    decreases n
  {
    var st := FieldsUpTo(fs, vals, raw, path, leaf, n - 1);
    var o := DecodeField(fs[n - 1], vals[n - 1], raw, path, leaf);
    assert FieldsUpTo(fs, vals, raw, path, leaf, n).errs == st.errs + o.errs;
    if i < n - 1 {
      FieldsErrorsKept(fs, vals, raw, path, leaf, n - 1, i);
    }
  }

  // ---------------------------------------------------------------------
  // Properties of struct decoding

  /** `null` decodes like the empty object: every required field missing. */
  lemma NullIsEmptyObject(fs: seq<Field>, rec: Value, path: string, leaf: LeafDecoder)
    requires WellFormed(Record(fs)) && Conforms(rec, Record(fs))
    ensures DecodeStruct(fs, rec, JNull, path, leaf) == DecodeStruct(fs, rec, JObj([]), path, leaf)
  {
  }

  /** A field whose wire name is not in the object: when required it is
      reported at its dotted path; when optional its value stays as it was. */
  lemma StructAbsentField(fs: seq<Field>, rec: Value, ms: seq<Member>, path: string,
                          leaf: LeafDecoder, i: nat)
    requires WellFormed(Record(fs)) && Conforms(rec, Record(fs))
    requires !Invalid(JObj(ms)) && i < |fs| && JsonName(fs[i]) !in KeySet(ms)
    ensures var o := DecodeStruct(fs, rec, JObj(ms), path, leaf);
            (RequiredPolicy(fs[i]) ==> RequiredError(FieldPath(path, JsonName(fs[i]))) in o.errs) &&
            (!RequiredPolicy(fs[i]) ==> o.value.fields[i] == rec.fields[i])
  {
    var raw := RawMap(ms);
    RawMapKeys(ms);
    FieldsValues(fs, rec.fields, raw, path, leaf, |fs|, i);
    FieldsErrorsKept(fs, rec.fields, raw, path, leaf, |fs|, i);
    assert rec.fields[i] == rec.fields[i];
    var st := FieldsUpTo(fs, rec.fields, raw, path, leaf, |fs|);
    if RequiredPolicy(fs[i]) {
      var e := RequiredError(FieldPath(path, JsonName(fs[i])));
      assert e in DecodeField(fs[i], rec.fields[i], raw, path, leaf).errs;
      assert e in st.errs;
    }
  }

  /** Every field of a struct decoded from an object ends up as its own
      field decoding, and contributes all its errors. */
  lemma StructFields(fs: seq<Field>, rec: Value, ms: seq<Member>, path: string,
                     leaf: LeafDecoder, i: nat)
    requires WellFormed(Record(fs)) && Conforms(rec, Record(fs))
    requires !Invalid(JObj(ms)) && i < |fs|
    ensures var o := DecodeStruct(fs, rec, JObj(ms), path, leaf);
            var fo := DecodeField(fs[i], rec.fields[i], RawMap(ms), path, leaf);
            o.value.fields[i] == fo.value && multiset(fo.errs) <= multiset(o.errs)
  {
    FieldsValues(fs, rec.fields, RawMap(ms), path, leaf, |fs|, i);
    FieldsErrorsKept(fs, rec.fields, RawMap(ms), path, leaf, |fs|, i);
  }

  /** NotAllowed for `k` appears once in the scan when `k` is in the list
      of keys, and never otherwise. */
  lemma {:induction false} NotAllowedCount(path: string, ks: seq<string>, k: string)
    requires Distinct(ks)
    ensures multiset(NotAllowedErrors(path, ks))[NotAllowedError(FieldPath(path, k))] ==
              if k in ks then 1 else 0
  {
    if ks != [] {
      var pre, last := ks[..|ks| - 1], ks[|ks| - 1];
      assert Distinct(pre);
      NotAllowedCount(path, pre, k);
      if FieldPath(path, last) == FieldPath(path, k) {
        FieldPathInjective(path, last, k);
        assert k !in pre;
      }
      assert ks == pre + [last];
    }
  }

  /** The scan after the field loop: every input key no field declares is
      reported exactly once at its dotted path, and a declared name never. */
  lemma StructUnknownKeys(fs: seq<Field>, rec: Value, ms: seq<Member>, path: string,
                          leaf: LeafDecoder, k: string)
    requires WellFormed(Record(fs)) && Conforms(rec, Record(fs)) && !Invalid(JObj(ms))
    ensures var o := DecodeStruct(fs, rec, JObj(ms), path, leaf);
            var st := FieldsUpTo(fs, rec.fields, RawMap(ms), path, leaf, |fs|);
            var scan := NotAllowedErrors(path, UnknownKeys(ms, DeclaredNames(fs)));
            o.errs == st.errs + scan &&
            multiset(scan)[NotAllowedError(FieldPath(path, k))] ==
              if k in KeySet(ms) && k !in DeclaredNames(fs) then 1 else 0
  {
    UnknownKeysMembers(ms, DeclaredNames(fs));
    NotAllowedCount(path, UnknownKeys(ms, DeclaredNames(fs)), k);
  }

  /** Two lists holding the same keys once each give the same NotAllowed
      errors up to order. */
  lemma SameKeysSameErrors(path: string, a: seq<string>, b: seq<string>)
    requires Distinct(a) && Distinct(b)
    requires forall k :: k in a <==> k in b
    ensures multiset(NotAllowedErrors(path, a)) == multiset(NotAllowedErrors(path, b))
  {
    var ea, eb := NotAllowedErrors(path, a), NotAllowedErrors(path, b);
    forall e ensures multiset(ea)[e] == multiset(eb)[e] {
      if e in ea {
        var k := NotAllowedKey(path, a, e);
        NotAllowedCount(path, a, k);
        NotAllowedCount(path, b, k);
      } else if e in eb {
        var k := NotAllowedKey(path, b, e);
        NotAllowedCount(path, a, k);
        NotAllowedCount(path, b, k);
      }
    }
  }

  /** The key behind an element of the scan. */
  lemma {:induction false} NotAllowedKey(path: string, ks: seq<string>, e: Error) returns (k: string)
    requires e in NotAllowedErrors(path, ks)
    ensures k in ks && e == NotAllowedError(FieldPath(path, k))
  {
    var pre, last := ks[..|ks| - 1], ks[|ks| - 1];
    if e == NotAllowedError(FieldPath(path, last)) {
      k := last;
    } else {
      k := NotAllowedKey(path, pre, e);
      assert pre[..] <= ks;
    }
  }

  /** Appending one key appends one NotAllowed violation. */
  lemma NotAllowedSnoc(acc: Errors, path: string, ks: seq<string>, k: string)
    ensures acc + NotAllowedErrors(path, ks + [k]) == WithNotAllowed(acc + NotAllowedErrors(path, ks), FieldPath(path, k))
  {
    assert (ks + [k])[..|ks|] == ks;
    var e := NotAllowedError(FieldPath(path, k));
    assert NotAllowedErrors(path, ks + [k]) == NotAllowedErrors(path, ks) + [e];
    assert acc + (NotAllowedErrors(path, ks) + [e]) == (acc + NotAllowedErrors(path, ks)) + [e];
  }

  /** The field loop reports nothing exactly when no field reports anything. */
  lemma {:induction false} FieldsClean(fs: seq<Field>, vals: seq<Value>, raw: map<string, Json>,
                                       path: string, leaf: LeafDecoder, n: nat)
    requires Slots(fs, vals) && n <= |fs|
    ensures FieldsUpTo(fs, vals, raw, path, leaf, n).errs == [] <==>
              forall i :: 0 <= i < n ==> DecodeField(fs[i], vals[i], raw, path, leaf).errs == []
    decreases n
  {
    if n > 0 {
      FieldsClean(fs, vals, raw, path, leaf, n - 1);
    }
  }

  /** A struct decoded from an object has no errors exactly when every
      input key is a declared wire name and every field decodes cleanly. */
  lemma StructClean(fs: seq<Field>, rec: Value, ms: seq<Member>, path: string, leaf: LeafDecoder)
    requires WellFormed(Record(fs)) && Conforms(rec, Record(fs)) && !Invalid(JObj(ms))
    ensures DecodeStruct(fs, rec, JObj(ms), path, leaf).errs == [] <==>
              KeySet(ms) <= DeclaredNames(fs) &&
              forall i :: 0 <= i < |fs| ==> DecodeField(fs[i], rec.fields[i], RawMap(ms), path, leaf).errs == []
  {
    var unknown := UnknownKeys(ms, DeclaredNames(fs));
    UnknownKeysMembers(ms, DeclaredNames(fs));
    FieldsClean(fs, rec.fields, RawMap(ms), path, leaf, |fs|);
    if unknown != [] {
      assert unknown[0] in unknown;
    }
  }

  // ---------------------------------------------------------------------
  // The configuration error is reserved to the entry point

  /** Below the entry point the engine never reports an invalid
      destination: that error only ever comes from the entry check. */
  lemma {:induction false} ValueNoEntryError(s: Shape, v: Value, j: Json, path: string, leaf: LeafDecoder)
    requires Target(s, v)
    ensures Generic(InvalidUnmarshal) !in DecodeValue(s, v, j, path, leaf).errs
    decreases s, 3
  {
    var k := Pointee(s);
    if k.Record? {
      if s.Ptr? {
        StructNoEntryError(k.fields, v.target, j, path, leaf);
      } else {
        StructNoEntryError(k.fields, v, j, path, leaf);
      }
    }
  }

  lemma {:induction false} StructNoEntryError(fs: seq<Field>, rec: Value, j: Json, path: string, leaf: LeafDecoder)
    requires WellFormed(Record(fs)) && Conforms(rec, Record(fs))
    ensures Generic(InvalidUnmarshal) !in DecodeStruct(fs, rec, j, path, leaf).errs
    decreases Record(fs), 2
  {
    if ParseObject(j).Parsed? {
      var ms := ParseObject(j).members;
      FieldsNoEntryError(fs, rec.fields, RawMap(ms), path, leaf, |fs|);
      var scan := NotAllowedErrors(path, UnknownKeys(ms, DeclaredNames(fs)));
      forall e | e in scan ensures e.NotAllowedError? {
        var k := NotAllowedKey(path, UnknownKeys(ms, DeclaredNames(fs)), e);
      }
    }
  }

  lemma {:induction false} FieldsNoEntryError(fs: seq<Field>, vals: seq<Value>, raw: map<string, Json>,
                                              path: string, leaf: LeafDecoder, n: nat)
    requires Slots(fs, vals) && n <= |fs|
    ensures Generic(InvalidUnmarshal) !in FieldsUpTo(fs, vals, raw, path, leaf, n).errs
    decreases Record(fs), 1, n
  {
    if n > 0 {
      FieldsNoEntryError(fs, vals, raw, path, leaf, n - 1);
      FieldNoEntryError(fs[n - 1], vals[n - 1], raw, path, leaf);
    }
  }

  lemma {:induction false} FieldNoEntryError(f: Field, v: Value, raw: map<string, Json>, path: string,
                                             leaf: LeafDecoder)
    requires FieldTarget(f, v)
    ensures Generic(InvalidUnmarshal) !in DecodeField(f, v, raw, path, leaf).errs
    decreases f.shape, 4
  {
    var name := JsonName(f);
    if name in raw {
      var fv := if f.shape.Ptr? then VPtr(Zero(f.shape.target)) else v;
      ValueNoEntryError(f.shape, fv, raw[name], FieldPath(path, name), leaf);
    }
  }

  /** The entry check is the only source of its error: the result is
      exactly that one error precisely when the destination is rejected. */
  lemma EntryCheck(s: Shape, dest: Value, j: Json, leaf: LeafDecoder)
    requires WellFormed(s) && Conforms(dest, s)
    ensures Generic(InvalidUnmarshal) in Decode(s, dest, j, leaf).errs <==>
              !s.Ptr? || dest.VNil? || !s.target.Record?
  {
    if s.Ptr? && dest.VPtr? && s.target.Record? {
      ValueNoEntryError(s.target, dest.target, j, "", leaf);
    }
  }
}
