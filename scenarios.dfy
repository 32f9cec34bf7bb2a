/** The cases of unmarshal_test.go, and the violations the engine reports,
    computed on the model with the sample leaf decoder.

    The test structs (`User`, `Address`, `City`, `Box`, `Item`) are first
    reduced to what they declare: for each field its wire name, its shape
    and whether it is required (`IsUser` and its companions, proved once for
    the declarations below). The cases are then proved for every field list
    that declares the same, and finally stated for the test structs. */
module Scenarios {
  import opened JsonTree
  import opened Shapes
  import opened Fields
  import opened StrictErrors
  import opened Strict
  import opened SampleLeaf

  const CityShape := Record([Field("Name", "", Str)])

  const AddressShape := Record([
    Field("Street", "", Str),
    Field("HouseNo", "", Ptr(Uint)),
    Field("PostalCode", "", Ptr(Str)),
    Field("City", "", Ptr(CityShape))])

  const UserShape := Record([
    Field("FirstName", "", Str),
    Field("LastName", "", Ptr(Str)),
    Field("Age", "age,omitempty", Int),
    Field("FavNumber", ",omitempty", Float),
    Field("Address", "", Ptr(AddressShape))])

  const ItemShape := Record([Field("Name", "name", Str), Field("Amount", "amount", Ptr(Int))])

  const BoxShape := Record([
    Field("Name", "name", Str),
    Field("Items", "items", Slice(ItemShape)),
    Field("Extra", "extra", Slice(Ptr(ItemShape)))])

  // ---------------------------------------------------------------------
  // What the test structs declare

  /** Field `f` has shape `s`, is matched under `name` and is required or not. */
  predicate Declares(f: Field, name: string, s: Shape, required: bool)
  {
    f.shape == s && JsonName(f) == name && RequiredPolicy(f) == required
  }

  predicate IsCity(fs: seq<Field>)
  {
    |fs| == 1 && Declares(fs[0], "Name", Str, true)
  }

  predicate IsAddress(fs: seq<Field>)
  {
    |fs| == 4 && WellFormed(Record(fs)) &&
    Declares(fs[0], "Street", Str, true) &&
    Declares(fs[1], "HouseNo", Ptr(Uint), false) &&
    Declares(fs[2], "PostalCode", Ptr(Str), false) &&
    fs[3].shape.Ptr? && fs[3].shape.target.Record? && IsCity(fs[3].shape.target.fields) &&
    JsonName(fs[3]) == "City" && !RequiredPolicy(fs[3])
  }

  predicate IsUser(fs: seq<Field>)
  {
    WellFormed(Record(fs)) && UserSlots(fs)
  }

  /** The User struct's five fields, one by one. */
  predicate UserSlots(fs: seq<Field>)
  {
    |fs| == 5 &&
    Declares(fs[0], "FirstName", Str, true) &&
    Declares(fs[1], "LastName", Ptr(Str), false) &&
    Declares(fs[2], "age", Int, false) &&
    Declares(fs[3], "FavNumber", Float, false) &&
    AddressSlot(fs[4])
  }

  /** User's address: an optional pointer to a struct, matched as `Address`. */
  predicate AddressSlot(f: Field)
  {
    f.shape.Ptr? && f.shape.target.Record? && WellFormed(f.shape.target) &&
    JsonName(f) == "Address" && !RequiredPolicy(f)
  }

  /** The User struct's address field points to an Address struct. */
  predicate HasAddress(fs: seq<Field>)
    requires UserSlots(fs)
  {
    IsAddress(fs[4].shape.target.fields)
  }

  predicate IsItem(fs: seq<Field>)
  {
    |fs| == 2 && Declares(fs[0], "name", Str, true) && Declares(fs[1], "amount", Ptr(Int), false)
  }

  predicate IsBox(fs: seq<Field>)
  {
    |fs| == 3 && WellFormed(Record(fs)) &&
    Declares(fs[0], "name", Str, true) &&
    fs[1].shape.Slice? && fs[1].shape.elem.Record? && IsItem(fs[1].shape.elem.fields) &&
    JsonName(fs[1]) == "items" && RequiredPolicy(fs[1]) &&
    Declares(fs[2], "extra", Slice(Ptr(fs[1].shape.elem)), false)
  }

  /** A field without a tag is matched under its identifier and is required
      unless it is a pointer. */
  lemma UntaggedPolicy(f: Field)
    requires f.tag == "" && !f.shape.Slice?
    ensures JsonName(f) == f.ident
    ensures RequiredPolicy(f) <==> !f.shape.Ptr?
  {
    assert Split("", ',') == [""];
  }

  /** A tag that is a bare name without options renames the field and
      leaves its required-ness to its shape. */
  lemma NameOnlyTag(f: Field)
    requires f.tag != "" && f.tag != "-" && ',' !in f.tag
    ensures JsonName(f) == f.tag
    ensures RequiredPolicy(f) <==> !f.shape.Ptr? && (f.shape.Slice? ==> !f.shape.elem.Ptr?)
  {
    TagParts(f, [f.tag]);
    assert [f.tag][1..] == [];
  }

  /** `Age` is matched as `age` and `FavNumber` under its identifier; the
      `omitempty` option makes both optional. */
  lemma AgePolicy()
    ensures Declares(UserShape.fields[2], "age", Int, false)
  {
    var f := Field("Age", "age,omitempty", Int);
    assert f.tag == Join(["age", "omitempty"], ',');
    TagParts(f, ["age", "omitempty"]);
  }

  lemma FavNumberPolicy()
    ensures Declares(UserShape.fields[3], "FavNumber", Float, false)
  {
    var f := Field("FavNumber", ",omitempty", Float);
    assert f.tag == Join(["", "omitempty"], ',');
    TagParts(f, ["", "omitempty"]);
  }

  lemma CityFacts()
    ensures IsCity(CityShape.fields)
  {
    UntaggedPolicy(CityShape.fields[0]);
  }

  lemma AddressFacts()
    ensures IsAddress(AddressShape.fields)
  {
    var fs := AddressShape.fields;
    CityFacts();
    UntaggedPolicy(fs[0]);
    UntaggedPolicy(fs[1]);
    UntaggedPolicy(fs[2]);
    UntaggedPolicy(fs[3]);
    AddressWellFormed();
  }

  /** No test struct has a pointer-to-pointer field. */
  lemma AddressWellFormed()
    ensures WellFormed(AddressShape)
  {
    var fs := AddressShape.fields;
    forall i | 0 <= i < |fs| ensures !DoublePointer(fs[i].shape) && WellFormed(fs[i].shape) {
      if i == 3 { assert fs[3].shape == Ptr(CityShape); }
    }
  }

  lemma UserWellFormed()
    ensures WellFormed(UserShape)
  {
    var fs := UserShape.fields;
    AddressWellFormed();
    forall i | 0 <= i < |fs| ensures !DoublePointer(fs[i].shape) && WellFormed(fs[i].shape) {
      if i == 4 { assert fs[4].shape == Ptr(AddressShape); }
    }
  }

  lemma BoxWellFormed()
    ensures WellFormed(BoxShape)
  {
    var fs := BoxShape.fields;
    assert WellFormed(ItemShape);
    forall i | 0 <= i < |fs| ensures !DoublePointer(fs[i].shape) && WellFormed(fs[i].shape) {
      if i == 1 { assert fs[1].shape == Slice(ItemShape); }
      else if i == 2 { assert fs[2].shape == Slice(Ptr(ItemShape)); }
    }
  }

  lemma UserFacts()
    ensures IsUser(UserShape.fields) && HasAddress(UserShape.fields)
  {
    var fs := UserShape.fields;
    AddressFacts();
    UntaggedPolicy(fs[0]);
    UntaggedPolicy(fs[1]);
    AgePolicy();
    FavNumberPolicy();
    UntaggedPolicy(fs[4]);
    UserWellFormed();
  }

  lemma ItemFacts()
    ensures IsItem(ItemShape.fields)
  {
    NameOnlyTag(ItemShape.fields[0]);
    NameOnlyTag(ItemShape.fields[1]);
  }

  /** Box's tags rename its fields; `extra`, a slice of pointers, is optional. */
  lemma BoxTags()
    ensures Declares(BoxShape.fields[0], "name", Str, true)
    ensures JsonName(BoxShape.fields[1]) == "items" && RequiredPolicy(BoxShape.fields[1])
    ensures Declares(BoxShape.fields[2], "extra", Slice(Ptr(ItemShape)), false)
  {
    NameOnlyTag(Field("Name", "name", Str));
    NameOnlyTag(Field("Items", "items", Slice(ItemShape)));
    NameOnlyTag(Field("Extra", "extra", Slice(Ptr(ItemShape))));
  }

  lemma BoxFacts()
    ensures IsBox(BoxShape.fields)
  {
    ItemFacts();
    BoxTags();
    BoxWellFormed();
  }

  /** The wire names each struct declares. */
  const UserKeys: set<string> := {"FirstName", "LastName", "age", "FavNumber", "Address"}
  const AddressKeys: set<string> := {"Street", "HouseNo", "PostalCode", "City"}
  const BoxKeys: set<string> := {"name", "items", "extra"}

  lemma UserDeclared(fs: seq<Field>)
    requires IsUser(fs)
    ensures DeclaredNames(fs) == UserKeys
  {
    assert NamesUpTo(fs, 1) == {"FirstName"};
    assert NamesUpTo(fs, 2) == {"FirstName", "LastName"};
    assert NamesUpTo(fs, 3) == {"FirstName", "LastName", "age"};
    assert NamesUpTo(fs, 4) == {"FirstName", "LastName", "age", "FavNumber"};
  }

  lemma AddressDeclared(fs: seq<Field>)
    requires IsAddress(fs)
    ensures DeclaredNames(fs) == AddressKeys
  {
    assert NamesUpTo(fs, 1) == {"Street"};
    assert NamesUpTo(fs, 2) == {"Street", "HouseNo"};
    assert NamesUpTo(fs, 3) == {"Street", "HouseNo", "PostalCode"};
  }

  lemma BoxDeclared(fs: seq<Field>)
    requires IsBox(fs)
    ensures DeclaredNames(fs) == BoxKeys
  {
    assert NamesUpTo(fs, 1) == {"name"};
    assert NamesUpTo(fs, 2) == {"name", "items"};
  }

  /** The zero values: empty strings, zero numbers, nil pointers and slices. */
  lemma UserZero(fs: seq<Field>)
    requires IsUser(fs)
    ensures Zero(Record(fs)).fields == [VStr(""), VNil, VInt(0), VFloat(0.0), VNil]
  {
    ZeroFive(fs);
  }

  /** A record of five fields starts as the zero values of their shapes. */
  lemma ZeroFive(fs: seq<Field>)
    requires |fs| == 5
    ensures Zero(Record(fs)).fields == [Zero(fs[0].shape), Zero(fs[1].shape), Zero(fs[2].shape),
                                        Zero(fs[3].shape), Zero(fs[4].shape)]
  {
    var z := Zero(Record(fs)).fields;
    forall i | 0 <= i < 5 ensures z[i] == Zero(fs[i].shape) {
      ZeroFieldsAt(fs, 5, i);
    }
  }

  lemma AddressZero(fs: seq<Field>)
    requires IsAddress(fs)
    ensures Zero(Record(fs)).fields == [VStr(""), VNil, VNil, VNil]
  {
    var z := Zero(Record(fs)).fields;
    forall i | 0 <= i < 4 ensures z[i] == Zero(fs[i].shape) {
      ZeroFieldsAt(fs, 4, i);
    }
  }

  lemma BoxZero(fs: seq<Field>)
    requires IsBox(fs)
    ensures Zero(Record(fs)).fields == [VStr(""), VSlice([]), VSlice([])]
  {
    var z := Zero(Record(fs)).fields;
    forall i | 0 <= i < 3 ensures z[i] == Zero(fs[i].shape) {
      ZeroFieldsAt(fs, 3, i);
    }
  }

  // ---------------------------------------------------------------------
  // Objects and raw maps

  /** No key occurs twice among the members. */
  predicate DistinctKeys(ms: seq<Member>)
  {
    forall i, k :: 0 <= i < k < |ms| ==> ms[i].key != ms[k].key
  }

  /** With distinct keys, the raw map gives each member's own value. */
  lemma Lookup(ms: seq<Member>, i: nat)
    requires DistinctKeys(ms) && i < |ms|
    ensures ms[i].key in RawMap(ms) && RawMap(ms)[ms[i].key] == ms[i].value
  {
    RawMapLastWins(ms, i);
  }

  /** A name that no member carries is absent from the raw map. */
  lemma Absent(ms: seq<Member>, k: string)
    requires forall i :: 0 <= i < |ms| ==> ms[i].key != k
    ensures k !in RawMap(ms)
  {
    RawMapKeys(ms);
  }

  /** Members whose keys are all declared leave nothing for the scan. */
  lemma MembersDeclared(ms: seq<Member>, declared: set<string>)
    requires forall i :: 0 <= i < |ms| ==> ms[i].key in declared
    ensures KeySet(ms) <= declared
    ensures UnknownKeys(ms, declared) == []
  {
    forall k | k in KeySet(ms) ensures k in declared {
      var i :| 0 <= i < |ms| && ms[i].key == k;
    }
    UnknownKeysMembers(ms, declared);
  }

  // ---------------------------------------------------------------------
  // One field at a time

  /** A present leaf field that the decoder fills with `w`, not left empty
      when required, decodes cleanly to `w`. */
  lemma LeafField(f: Field, v: Value, raw: map<string, Json>, path: string, w: Value)
    requires FieldTarget(f, v) && !f.shape.Ptr? && IsLeafKind(f.shape)
    requires JsonName(f) in raw && Std(f.shape, v, raw[JsonName(f)]) == Decoded(w)
    requires !(RequiredPolicy(f) && IsEmpty(w))
    ensures DecodeField(f, v, raw, path, Std) == Outcome(w, [])
  {
  }

  /** A present leaf field that the decoder fills with an empty value is
      reported, when required, under its bare wire name. */
  lemma LeafFieldEmpty(f: Field, v: Value, raw: map<string, Json>, path: string, w: Value)
    requires FieldTarget(f, v) && !f.shape.Ptr? && IsLeafKind(f.shape)
    requires JsonName(f) in raw && Std(f.shape, v, raw[JsonName(f)]) == Decoded(w)
    requires RequiredPolicy(f) && IsEmpty(w)
    ensures DecodeField(f, v, raw, path, Std) == Outcome(w, [RequiredError(JsonName(f))])
  {
  }

  /** A present leaf field of the wrong JSON type is reported at its path
      with the expected Go type and the JSON type found. */
  lemma LeafFieldMismatch(f: Field, v: Value, raw: map<string, Json>, path: string,
                          got: string, expected: string, w: Value)
    requires FieldTarget(f, v) && !f.shape.Ptr? && IsLeafKind(f.shape)
    requires JsonName(f) in raw && Std(f.shape, v, raw[JsonName(f)]) == Mismatch(got, expected, w)
    ensures DecodeField(f, v, raw, path, Std)
            == Outcome(w, [InvalidTypeError(FieldPath(path, JsonName(f)), expected, got)])
  {
  }

  /** A present pointer-to-leaf field decodes into fresh storage and, being
      optional, is never reported empty. */
  lemma PtrLeafField(f: Field, v: Value, raw: map<string, Json>, path: string, w: Value)
    requires FieldTarget(f, v) && f.shape.Ptr? && IsLeafKind(f.shape.target)
    requires JsonName(f) in raw && Std(f.shape, VPtr(Zero(f.shape.target)), raw[JsonName(f)]) == Decoded(w)
    ensures DecodeField(f, v, raw, path, Std) == Outcome(w, [])
  {
  }

  /** A present pointer-to-struct field decodes its object into fresh
      storage at the extended path, and keeps the errors found inside. */
  lemma PtrStructField(f: Field, v: Value, raw: map<string, Json>, path: string, w: Value, es: Errors)
    requires FieldTarget(f, v) && f.shape.Ptr? && f.shape.target.Record?
    requires JsonName(f) in raw
    requires DecodeStruct(f.shape.target.fields, Zero(f.shape.target), raw[JsonName(f)],
                          FieldPath(path, JsonName(f)), Std) == Outcome(w, es)
    ensures DecodeField(f, v, raw, path, Std) == Outcome(VPtr(w), es)
  {
    assert Zero(f.shape.target) == Zero(Record(f.shape.target.fields));
  }

  /** An optional field whose key is absent keeps its value, with no error. */
  lemma OptionalFieldAbsent(f: Field, v: Value, raw: map<string, Json>, path: string)
    requires FieldTarget(f, v) && !RequiredPolicy(f) && JsonName(f) !in raw
    ensures DecodeField(f, v, raw, path, Std) == Outcome(v, [])
  {
    AbsentField(f, v, raw, path, Std);
  }

  /** A natural number decodes into a pointer to an unsigned integer. */
  lemma StdNatPtr(n: nat)
    ensures Std(Ptr(Uint), VPtr(VUint(0)), JNum(n as real)) == Decoded(VPtr(VUint(n)))
  {
    assert (n as real).Floor == n;
    assert StdValue(Uint, VUint(0), JNum(n as real)) == Decoded(VUint(n));
  }

  // ---------------------------------------------------------------------
  // Whole structs

  /** Through the entry point, a pointer to a struct holds what struct
      decoding at the empty path gives, with the same errors. */
  lemma EntryDecode(fs: seq<Field>, rec: Value, j: Json)
    requires WellFormed(Record(fs)) && Conforms(rec, Record(fs))
    ensures var o := DecodeStruct(fs, rec, j, "", Std);
            Decode(Ptr(Record(fs)), VPtr(rec), j, Std) == Outcome(VPtr(o.value), o.errs)
  {
  }

  /** A struct whose keys are all declared and whose fields each decode
      cleanly to the expected values decodes to the record of those values. */
  lemma DecodesTo(fs: seq<Field>, rec: Value, ms: seq<Member>, path: string, expected: seq<Value>)
    requires WellFormed(Record(fs)) && Conforms(rec, Record(fs)) && !Invalid(JObj(ms))
    requires KeySet(ms) <= DeclaredNames(fs) && |expected| == |fs|
    requires forall i :: 0 <= i < |fs| ==>
               DecodeField(fs[i], rec.fields[i], RawMap(ms), path, Std) == Outcome(expected[i], [])
    ensures DecodeStruct(fs, rec, JObj(ms), path, Std) == Outcome(VRecord(expected), [])
  {
    var o := DecodeStruct(fs, rec, JObj(ms), path, Std);
    StructClean(fs, rec, ms, path, Std);
    forall i | 0 <= i < |fs| ensures o.value.fields[i] == expected[i] {
      StructFields(fs, rec, ms, path, Std, i);
    }
  }

  /** The errors of several fields, one field after another. */
  function Flatten(es: seq<Errors>): Errors
  {
    if es == [] then [] else Flatten(es[..|es| - 1]) + es[|es| - 1]
  }

  /** One more field adds its errors at the end. */
  lemma FlattenSnoc(es: seq<Errors>, e: Errors)
    ensures Flatten(es + [e]) == Flatten(es) + e
  {
    assert (es + [e])[..|es|] == es;
  }

  /** The field loop reports the errors of the fields in declaration order. */
  lemma {:induction false} FieldsFlatten(fs: seq<Field>, vals: seq<Value>, raw: map<string, Json>,
                                         path: string, leaf: LeafDecoder, es: seq<Errors>, n: nat)
    requires Slots(fs, vals) && n <= |fs| == |es|
    requires forall i :: 0 <= i < |fs| ==> DecodeField(fs[i], vals[i], raw, path, leaf).errs == es[i]
    ensures FieldsUpTo(fs, vals, raw, path, leaf, n).errs == Flatten(es[..n])
  {
    if n > 0 {
      FieldsFlatten(fs, vals, raw, path, leaf, es, n - 1);
      assert es[..n][..n - 1] == es[..n - 1];
    }
  }

  /** The errors of a struct: those of its fields in declaration order,
      then the undeclared keys. */
  lemma StructErrors(fs: seq<Field>, rec: Value, ms: seq<Member>, path: string, es: seq<Errors>)
    requires WellFormed(Record(fs)) && Conforms(rec, Record(fs)) && !Invalid(JObj(ms)) && |es| == |fs|
    requires forall i :: 0 <= i < |fs| ==> DecodeField(fs[i], rec.fields[i], RawMap(ms), path, Std).errs == es[i]
    ensures DecodeStruct(fs, rec, JObj(ms), path, Std).errs
            == Flatten(es) + NotAllowedErrors(path, UnknownKeys(ms, DeclaredNames(fs)))
  {
    StructUnknownKeys(fs, rec, ms, path, Std, "");
    FieldsFlatten(fs, rec.fields, RawMap(ms), path, Std, es, |fs|);
    assert es[..|fs|] == es;
  }

  /** A struct whose fields each decode to the expected values with the
      given errors holds those values and reports those errors in
      declaration order, then one NotAllowed violation per undeclared key. */
  lemma DecodesWith(fs: seq<Field>, rec: Value, ms: seq<Member>, path: string,
                    expected: seq<Value>, es: seq<Errors>)
    requires WellFormed(Record(fs)) && Conforms(rec, Record(fs)) && !Invalid(JObj(ms))
    requires |expected| == |fs| && |es| == |fs|
    requires forall i :: 0 <= i < |fs| ==>
               DecodeField(fs[i], rec.fields[i], RawMap(ms), path, Std) == Outcome(expected[i], es[i])
    ensures DecodeStruct(fs, rec, JObj(ms), path, Std)
            == Outcome(VRecord(expected), Flatten(es) + NotAllowedErrors(path, UnknownKeys(ms, DeclaredNames(fs))))
  {
    var o := DecodeStruct(fs, rec, JObj(ms), path, Std);
    StructErrors(fs, rec, ms, path, es);
    forall i | 0 <= i < |fs| ensures o.value.fields[i] == expected[i] {
      StructFields(fs, rec, ms, path, Std, i);
    }
  }

  /** Four fields' errors, one after another. */
  lemma FlattenFour(e0: Errors, e1: Errors, e2: Errors, e3: Errors)
    ensures Flatten([e0, e1, e2, e3]) == e0 + e1 + e2 + e3
  {
    FlattenSnoc([], e0);
    FlattenSnoc([e0], e1);
    FlattenSnoc([e0, e1], e2);
    FlattenSnoc([e0, e1, e2], e3);
    assert [] + [e0] == [e0] && [e0] + [e1] == [e0, e1] && [e0, e1] + [e2] == [e0, e1, e2];
    assert [e0, e1, e2] + [e3] == [e0, e1, e2, e3];
  }

  lemma FlattenFive(e0: Errors, e1: Errors, e2: Errors, e3: Errors, e4: Errors)
    ensures Flatten([e0, e1, e2, e3, e4]) == e0 + e1 + e2 + e3 + e4
  {
    FlattenFour(e0, e1, e2, e3);
    FlattenSnoc([e0, e1, e2, e3], e4);
    assert [e0, e1, e2, e3] + [e4] == [e0, e1, e2, e3, e4];
  }

  /** A struct of four fields, each decoding to its value with its errors:
      the errors one field after another, then the undeclared keys. */
  lemma FourFields(fs: seq<Field>, rec: Value, ms: seq<Member>, path: string, x: seq<Value>,
                   e0: Errors, e1: Errors, e2: Errors, e3: Errors)
    requires WellFormed(Record(fs)) && Conforms(rec, Record(fs)) && !Invalid(JObj(ms))
    requires |fs| == 4 && |x| == 4
    requires DecodeField(fs[0], rec.fields[0], RawMap(ms), path, Std) == Outcome(x[0], e0)
    requires DecodeField(fs[1], rec.fields[1], RawMap(ms), path, Std) == Outcome(x[1], e1)
    requires DecodeField(fs[2], rec.fields[2], RawMap(ms), path, Std) == Outcome(x[2], e2)
    requires DecodeField(fs[3], rec.fields[3], RawMap(ms), path, Std) == Outcome(x[3], e3)
    ensures DecodeStruct(fs, rec, JObj(ms), path, Std)
            == Outcome(VRecord(x), e0 + e1 + e2 + e3 + NotAllowedErrors(path, UnknownKeys(ms, DeclaredNames(fs))))
  {
    var es := [e0, e1, e2, e3];
    assert forall i :: 0 <= i < 4 ==>
      DecodeField(fs[i], rec.fields[i], RawMap(ms), path, Std) == Outcome(x[i], es[i]) by {
      forall i | 0 <= i < 4
        ensures DecodeField(fs[i], rec.fields[i], RawMap(ms), path, Std) == Outcome(x[i], es[i])
      {
        if i == 0 {} else if i == 1 {} else if i == 2 {} else {}
      }
    }
    DecodesWith(fs, rec, ms, path, x, es);
    FlattenFour(e0, e1, e2, e3);
  }

  // ---------------------------------------------------------------------
  // City and Address

  /** A city object with a non-empty name decodes cleanly at any path. */
  lemma CityDecodes(fs: seq<Field>, name: string, path: string)
    requires IsCity(fs) && name != ""
    ensures DecodeStruct(fs, Zero(Record(fs)), JObj([Member("Name", JStr(name))]), path, Std)
            == Outcome(VRecord([VStr(name)]), [])
  {
    var ms := [Member("Name", JStr(name))];
    assert !Invalid(JObj(ms)) by {
      assert forall i :: 0 <= i < |ms| ==> !Invalid(ms[i].value);
    }
    Lookup(ms, 0);
    ZeroFieldsAt(fs, 1, 0);
    LeafField(fs[0], VStr(""), RawMap(ms), path, VStr(name));
    assert DeclaredNames(fs) == {"Name"} by {
      assert NamesUpTo(fs, 0) == {};
    }
    MembersDeclared(ms, DeclaredNames(fs));
    DecodesTo(fs, Zero(Record(fs)), ms, path, [VStr(name)]);
  }

  /** The address objects of the test cases. */
  function AddressMembers(street: string, houseNo: nat, postal: string, city: string): seq<Member>
  {
    [Member("Street", JStr(street)), Member("HouseNo", JNum(houseNo as real)),
     Member("PostalCode", JStr(postal)), Member("City", JObj([Member("Name", JStr(city))]))]
  }

  function AddressValue(street: string, houseNo: nat, postal: string, city: string): seq<Value>
  {
    [VStr(street), VPtr(VUint(houseNo)), VPtr(VStr(postal)), VPtr(VRecord([VStr(city)]))]
  }

  /** The address object is well formed, its keys are declared, and its raw
      map holds each member. */
  lemma AddressInput(street: string, houseNo: nat, postal: string, city: string)
    ensures var ms := AddressMembers(street, houseNo, postal, city);
            !Invalid(JObj(ms)) && UnknownKeys(ms, AddressKeys) == []
    ensures var raw := RawMap(AddressMembers(street, houseNo, postal, city));
            "Street" in raw && raw["Street"] == JStr(street) &&
            "HouseNo" in raw && raw["HouseNo"] == JNum(houseNo as real) &&
            "PostalCode" in raw && raw["PostalCode"] == JStr(postal) &&
            "City" in raw && raw["City"] == JObj([Member("Name", JStr(city))])
  {
    var ms := AddressMembers(street, houseNo, postal, city);
    assert !Invalid(JObj(ms)) by {
      assert !Invalid(ms[3].value) by {
        assert forall i :: 0 <= i < |ms[3].value.members| ==> !Invalid(ms[3].value.members[i].value);
      }
      assert forall i :: 0 <= i < |ms| ==> !Invalid(ms[i].value);
    }
    MembersDeclared(ms, AddressKeys);
    Lookup(ms, 0);
    Lookup(ms, 1);
    Lookup(ms, 2);
    Lookup(ms, 3);
  }

  /** The address objects of the test cases decode with no errors: the
      street is non-empty, the pointers are allocated and filled. */
  lemma AddressDecodes(fs: seq<Field>, street: string, houseNo: nat, postal: string, city: string, path: string)
    requires IsAddress(fs) && street != "" && city != ""
    ensures DecodeStruct(fs, Zero(Record(fs)), JObj(AddressMembers(street, houseNo, postal, city)), path, Std)
            == Outcome(VRecord(AddressValue(street, houseNo, postal, city)), [])
  {
    var ms := AddressMembers(street, houseNo, postal, city);
    var raw := RawMap(ms);
    AddressInput(street, houseNo, postal, city);
    AddressDeclared(fs);
    AddressZero(fs);
    LeafField(fs[0], VStr(""), raw, path, VStr(street));
    StdNatPtr(houseNo);
    PtrLeafField(fs[1], VNil, raw, path, VPtr(VUint(houseNo)));
    PtrLeafField(fs[2], VNil, raw, path, VPtr(VStr(postal)));
    CityDecodes(fs[3].shape.target.fields, city, FieldPath(path, "City"));
    PtrStructField(fs[3], VNil, raw, path, VRecord([VStr(city)]), []);
    FourFields(fs, Zero(Record(fs)), ms, path, AddressValue(street, houseNo, postal, city), [], [], [], []);
  }

  /** An Address object that holds at most a street: the three optional
      pointers stay nil, and the street field yields `street0` and `es0`. */
  lemma AddressStreetOnly(fs: seq<Field>, ms: seq<Member>, path: string, street0: Value, es0: Errors)
    requires IsAddress(fs) && !Invalid(JObj(ms)) && forall i :: 0 <= i < |ms| ==> ms[i].key == "Street"
    requires DecodeField(fs[0], VStr(""), RawMap(ms), path, Std) == Outcome(street0, es0)
    ensures DecodeStruct(fs, Zero(Record(fs)), JObj(ms), path, Std)
            == Outcome(VRecord([street0, VNil, VNil, VNil]), es0)
  {
    var raw := RawMap(ms);
    AddressZero(fs);
    AddressDeclared(fs);
    MembersDeclared(ms, AddressKeys);
    Absent(ms, "HouseNo");
    Absent(ms, "PostalCode");
    Absent(ms, "City");
    OptionalFieldAbsent(fs[1], VNil, raw, path);
    OptionalFieldAbsent(fs[2], VNil, raw, path);
    OptionalFieldAbsent(fs[3], VNil, raw, path);
    FourFields(fs, Zero(Record(fs)), ms, path, [street0, VNil, VNil, VNil], es0, [], [], []);
    assert es0 + [] + [] + [] + [] == es0;
  }

  /** An empty Address object misses its required street, reported at the
      dotted path. */
  lemma AddressNoStreet(fs: seq<Field>, path: string)
    requires IsAddress(fs)
    ensures DecodeStruct(fs, Zero(Record(fs)), JObj([]), path, Std)
            == Outcome(VRecord([VStr(""), VNil, VNil, VNil]), [RequiredError(FieldPath(path, "Street"))])
  {
    Absent([], "Street");
    AbsentField(fs[0], VStr(""), RawMap([]), path, Std);
    AddressStreetOnly(fs, [], path, VStr(""), [RequiredError(FieldPath(path, "Street"))]);
  }

  /** An Address object whose street is the empty string: the required
      street is reported under its bare wire name, without the path of the
      enclosing field. */
  lemma AddressEmptyStreet(fs: seq<Field>, path: string)
    requires IsAddress(fs)
    ensures DecodeStruct(fs, Zero(Record(fs)), JObj([Member("Street", JStr(""))]), path, Std)
            == Outcome(VRecord([VStr(""), VNil, VNil, VNil]), [RequiredError("Street")])
  {
    var ms := [Member("Street", JStr(""))];
    assert !Invalid(JObj(ms)) by {
      assert forall i :: 0 <= i < |ms| ==> !Invalid(ms[i].value);
    }
    Lookup(ms, 0);
    assert StdValue(Str, VStr(""), JStr("")) == Decoded(VStr(""));
    LeafFieldEmpty(fs[0], VStr(""), RawMap(ms), path, VStr(""));
    AddressStreetOnly(fs, ms, path, VStr(""), [RequiredError("Street")]);
  }

  // ---------------------------------------------------------------------
  // User, one field at a time, for any raw map

  lemma FirstNameField(f: Field, raw: map<string, Json>, name: string)
    requires Declares(f, "FirstName", Str, true) && "FirstName" in raw && raw["FirstName"] == JStr(name) && name != ""
    ensures DecodeField(f, VStr(""), raw, "", Std) == Outcome(VStr(name), [])
  {
    LeafField(f, VStr(""), raw, "", VStr(name));
  }

  /** A missing first name is reported; it is required, having no pointer. */
  lemma FirstNameAbsent(f: Field, raw: map<string, Json>)
    requires Declares(f, "FirstName", Str, true) && "FirstName" !in raw
    ensures DecodeField(f, VStr(""), raw, "", Std) == Outcome(VStr(""), [RequiredError("FirstName")])
  {
    AbsentField(f, VStr(""), raw, "", Std);
  }

  lemma LastNameField(f: Field, raw: map<string, Json>, name: string)
    requires Declares(f, "LastName", Ptr(Str), false) && "LastName" in raw && raw["LastName"] == JStr(name)
    ensures DecodeField(f, VNil, raw, "", Std) == Outcome(VPtr(VStr(name)), [])
  {
    PtrLeafField(f, VNil, raw, "", VPtr(VStr(name)));
  }

  lemma AgeField(f: Field, raw: map<string, Json>, n: int)
    requires Declares(f, "age", Int, false) && "age" in raw && raw["age"] == JNum(n as real)
    ensures DecodeField(f, VInt(0), raw, "", Std) == Outcome(VInt(n), [])
  {
    assert (n as real).Floor == n;
    LeafField(f, VInt(0), raw, "", VInt(n));
  }

  /** An age given as a string is an InvalidType violation at `age`. */
  lemma AgeMismatch(f: Field, raw: map<string, Json>, text: string)
    requires Declares(f, "age", Int, false) && "age" in raw && raw["age"] == JStr(text)
    ensures DecodeField(f, VInt(0), raw, "", Std)
            == Outcome(VInt(0), [InvalidTypeError("age", "int64", "string")])
  {
    assert StdValue(Int, VInt(0), JStr(text)) == Mismatch("string", "int64", VInt(0));
    LeafFieldMismatch(f, VInt(0), raw, "", "string", "int64", VInt(0));
  }

  lemma FavNumberField(f: Field, raw: map<string, Json>, x: real)
    requires Declares(f, "FavNumber", Float, false) && "FavNumber" in raw && raw["FavNumber"] == JNum(x)
    ensures DecodeField(f, VFloat(0.0), raw, "", Std) == Outcome(VFloat(x), [])
  {
    LeafField(f, VFloat(0.0), raw, "", VFloat(x));
  }

  /** An address object decoded into the User's fresh pointer, with the
      errors found inside it. */
  lemma AddressObjectField(f: Field, raw: map<string, Json>, addr: Json, w: Value, es: Errors)
    requires AddressSlot(f) && "Address" in raw && raw["Address"] == addr
    requires DecodeStruct(f.shape.target.fields, Zero(f.shape.target), addr, "Address", Std) == Outcome(w, es)
    ensures DecodeField(f, VNil, raw, "", Std) == Outcome(VPtr(w), es)
  {
    PtrStructField(f, VNil, raw, "", w, es);
  }

  /** The five fields of a User record, each decoded from its zero value
      out of `raw` at the top level, hold `x` and report `e0` to `e4`. */
  predicate UserFieldsGive(fs: seq<Field>, raw: map<string, Json>, x: seq<Value>,
                           e0: Errors, e1: Errors, e2: Errors, e3: Errors, e4: Errors)
    requires UserSlots(fs)
  {
    |x| == 5 &&
    DecodeField(fs[0], VStr(""), raw, "", Std) == Outcome(x[0], e0) &&
    DecodeField(fs[1], VNil, raw, "", Std) == Outcome(x[1], e1) &&
    DecodeField(fs[2], VInt(0), raw, "", Std) == Outcome(x[2], e2) &&
    DecodeField(fs[3], VFloat(0.0), raw, "", Std) == Outcome(x[3], e3) &&
    DecodeField(fs[4], VNil, raw, "", Std) == Outcome(x[4], e4)
  }

  /** A struct of five fields, each decoding to its value with its errors:
      the errors one field after another, then the undeclared keys. */
  lemma FiveFields(fs: seq<Field>, rec: Value, ms: seq<Member>, path: string, x: seq<Value>,
                   e0: Errors, e1: Errors, e2: Errors, e3: Errors, e4: Errors)
    requires WellFormed(Record(fs)) && Conforms(rec, Record(fs)) && !Invalid(JObj(ms))
    requires |fs| == 5 && |x| == 5
    requires DecodeField(fs[0], rec.fields[0], RawMap(ms), path, Std) == Outcome(x[0], e0)
    requires DecodeField(fs[1], rec.fields[1], RawMap(ms), path, Std) == Outcome(x[1], e1)
    requires DecodeField(fs[2], rec.fields[2], RawMap(ms), path, Std) == Outcome(x[2], e2)
    requires DecodeField(fs[3], rec.fields[3], RawMap(ms), path, Std) == Outcome(x[3], e3)
    requires DecodeField(fs[4], rec.fields[4], RawMap(ms), path, Std) == Outcome(x[4], e4)
    ensures DecodeStruct(fs, rec, JObj(ms), path, Std)
            == Outcome(VRecord(x), e0 + e1 + e2 + e3 + e4 + NotAllowedErrors(path, UnknownKeys(ms, DeclaredNames(fs))))
  {
    var es := [e0, e1, e2, e3, e4];
    assert forall i :: 0 <= i < 5 ==>
      DecodeField(fs[i], rec.fields[i], RawMap(ms), path, Std) == Outcome(x[i], es[i]) by {
      forall i | 0 <= i < 5
        ensures DecodeField(fs[i], rec.fields[i], RawMap(ms), path, Std) == Outcome(x[i], es[i])
      {
        if i == 0 {} else if i == 1 {} else if i == 2 {} else if i == 3 {} else {}
      }
    }
    DecodesWith(fs, rec, ms, path, x, es);
    FlattenFive(e0, e1, e2, e3, e4);
  }

  /** A User object whose fields decode to the values `x` with the errors
      `e0` to `e4`: those errors in declaration order, then the undeclared
      keys, through the entry point. */
  lemma UserDecodesWith(fs: seq<Field>, ms: seq<Member>, x: seq<Value>,
                        e0: Errors, e1: Errors, e2: Errors, e3: Errors, e4: Errors, extra: Errors)
    requires IsUser(fs) && !Invalid(JObj(ms)) && UserFieldsGive(fs, RawMap(ms), x, e0, e1, e2, e3, e4)
    requires NotAllowedErrors("", UnknownKeys(ms, UserKeys)) == extra
    ensures DecodeStruct(fs, Zero(Record(fs)), JObj(ms), "", Std) == Outcome(VRecord(x), e0 + e1 + e2 + e3 + e4 + extra)
  {
    UserZero(fs);
    UserDeclared(fs);
    FiveFields(fs, Zero(Record(fs)), ms, "", x, e0, e1, e2, e3, e4);
  }

  /** The errors of a User object where at most one source reports any. */
  lemma OnlyErrors(e: Errors)
    ensures e + [] + [] + [] + [] + [] == e
    ensures [] + [] + e + [] + [] + [] == e
    ensures [] + [] + [] + [] + e + [] == e
    ensures [] + [] + [] + [] + [] + e == e
  {
  }

  // ---------------------------------------------------------------------
  // TestSuccess, User cases

  /** A User object given as members in any order, each key once: it holds
      exactly a first name, a last name, an age, a favourite number and an
      address object. */
  ghost predicate FullUserInput(ms: seq<Member>, first: string, last: string, age: int, fav: real,
                                street: string, houseNo: nat, postal: string, city: string)
  {
    |ms| == 5 && DistinctKeys(ms) &&
    forall m :: m in ms <==> m in FullUserMembers(first, last, age, fav, street, houseNo, postal, city)
  }

  /** The members of a full User object, in the order of the declaration. */
  function FullUserMembers(first: string, last: string, age: int, fav: real,
                           street: string, houseNo: nat, postal: string, city: string): seq<Member>
  {
    [Member("FirstName", JStr(first)), Member("LastName", JStr(last)), Member("age", JNum(age as real)),
     Member("FavNumber", JNum(fav)), Member("Address", JObj(AddressMembers(street, houseNo, postal, city)))]
  }

  /** A full User object is well formed and all its keys are declared. */
  lemma FullUserWellFormedInput(ms: seq<Member>, first: string, last: string, age: int, fav: real,
                                street: string, houseNo: nat, postal: string, city: string)
    requires FullUserInput(ms, first, last, age, fav, street, houseNo, postal, city)
    ensures !Invalid(JObj(ms)) && UnknownKeys(ms, UserKeys) == [] &&
            NotAllowedErrors("", UnknownKeys(ms, UserKeys)) == []
  {
    var all := FullUserMembers(first, last, age, fav, street, houseNo, postal, city);
    AddressInput(street, houseNo, postal, city);
    assert forall i :: 0 <= i < |all| ==> !Invalid(all[i].value) && all[i].key in UserKeys;
    forall i | 0 <= i < |ms| ensures !Invalid(ms[i].value) && ms[i].key in UserKeys {
      assert ms[i] in all;
    }
    MembersDeclared(ms, UserKeys);
  }

  lemma FullUserRaw(ms: seq<Member>, first: string, last: string, age: int, fav: real,
                    street: string, houseNo: nat, postal: string, city: string, k: nat)
    requires FullUserInput(ms, first, last, age, fav, street, houseNo, postal, city) && k < 5
    ensures var m := FullUserMembers(first, last, age, fav, street, houseNo, postal, city)[k];
            m.key in RawMap(ms) && RawMap(ms)[m.key] == m.value
  {
    var all := FullUserMembers(first, last, age, fav, street, houseNo, postal, city);
    assert all[k] in all;
    var i :| 0 <= i < |ms| && ms[i] == all[k];
    Lookup(ms, i);
  }

  /** The raw map of a full User object holds each of its values. */
  lemma FullUserRawMap(ms: seq<Member>, first: string, last: string, age: int, fav: real,
                       street: string, houseNo: nat, postal: string, city: string)
    requires FullUserInput(ms, first, last, age, fav, street, houseNo, postal, city)
    ensures var raw := RawMap(ms);
            "FirstName" in raw && raw["FirstName"] == JStr(first) &&
            "LastName" in raw && raw["LastName"] == JStr(last) &&
            "age" in raw && raw["age"] == JNum(age as real) &&
            "FavNumber" in raw && raw["FavNumber"] == JNum(fav) &&
            "Address" in raw && raw["Address"] == JObj(AddressMembers(street, houseNo, postal, city))
  {
    FullUserRaw(ms, first, last, age, fav, street, houseNo, postal, city, 0);
    FullUserRaw(ms, first, last, age, fav, street, houseNo, postal, city, 1);
    FullUserRaw(ms, first, last, age, fav, street, houseNo, postal, city, 2);
    FullUserRaw(ms, first, last, age, fav, street, houseNo, postal, city, 3);
    FullUserRaw(ms, first, last, age, fav, street, houseNo, postal, city, 4);
  }

  /** A complete address object, with a non-empty street and city, fills
      the User's address pointer without errors. */
  lemma FullAddressField(fs: seq<Field>, raw: map<string, Json>, street: string, houseNo: nat, postal: string, city: string)
    requires UserSlots(fs) && HasAddress(fs) && street != "" && city != ""
    requires "Address" in raw && raw["Address"] == JObj(AddressMembers(street, houseNo, postal, city))
    ensures DecodeField(fs[4], VNil, raw, "", Std) == Outcome(VPtr(VRecord(AddressValue(street, houseNo, postal, city))), [])
  {
    AddressDecodes(fs[4].shape.target.fields, street, houseNo, postal, city, "Address");
    AddressObjectField(fs[4], raw, JObj(AddressMembers(street, houseNo, postal, city)),
                       VRecord(AddressValue(street, houseNo, postal, city)), []);
  }

  /** The fields of a full User object, each decoded on its own. */
  lemma FullUserFields(fs: seq<Field>, raw: map<string, Json>, first: string, last: string, age: int, fav: real,
                       street: string, houseNo: nat, postal: string, city: string)
    requires UserSlots(fs) && HasAddress(fs) && first != "" && street != "" && city != ""
    requires "FirstName" in raw && raw["FirstName"] == JStr(first) &&
             "LastName" in raw && raw["LastName"] == JStr(last) &&
             "age" in raw && raw["age"] == JNum(age as real) &&
             "FavNumber" in raw && raw["FavNumber"] == JNum(fav) &&
             "Address" in raw && raw["Address"] == JObj(AddressMembers(street, houseNo, postal, city))
    ensures UserFieldsGive(fs, raw, [VStr(first), VPtr(VStr(last)), VInt(age), VFloat(fav),
                                     VPtr(VRecord(AddressValue(street, houseNo, postal, city)))], [], [], [], [], [])
  {
    FirstNameField(fs[0], raw, first);
    LastNameField(fs[1], raw, last);
    AgeField(fs[2], raw, age);
    FavNumberField(fs[3], raw, fav);
    FullAddressField(fs, raw, street, houseNo, postal, city);
  }

  /** Every field present with a non-empty first name, street and city:
      no errors, and each field holds its input, pointers allocated. */
  lemma FullUserDecodes(fs: seq<Field>, ms: seq<Member>, first: string, last: string, age: int, fav: real,
                        street: string, houseNo: nat, postal: string, city: string)
    requires IsUser(fs) && HasAddress(fs) && first != "" && street != "" && city != ""
    requires FullUserInput(ms, first, last, age, fav, street, houseNo, postal, city)
    ensures DecodeStruct(fs, Zero(Record(fs)), JObj(ms), "", Std)
            == Outcome(VRecord([VStr(first), VPtr(VStr(last)), VInt(age), VFloat(fav),
                                     VPtr(VRecord(AddressValue(street, houseNo, postal, city)))]), [])
  {
    var x := [VStr(first), VPtr(VStr(last)), VInt(age), VFloat(fav),
              VPtr(VRecord(AddressValue(street, houseNo, postal, city)))];
    FullUserWellFormedInput(ms, first, last, age, fav, street, houseNo, postal, city);
    FullUserRawMap(ms, first, last, age, fav, street, houseNo, postal, city);
    FullUserFields(fs, RawMap(ms), first, last, age, fav, street, houseNo, postal, city);
    UserDecodesWith(fs, ms, x, [], [], [], [], [], []);
    OnlyErrors([]);
  }

  /** The members of a full User object with the age given second. */
  function AgeSecond(ms: seq<Member>): seq<Member>
    requires |ms| == 5
  {
    [ms[0], ms[2], ms[1], ms[3], ms[4]]
  }

  /** A full User object is accepted in the declared order and with the age
      moved forward. */
  lemma FullUserOrders(first: string, last: string, age: int, fav: real,
                       street: string, houseNo: nat, postal: string, city: string)
    ensures FullUserInput(FullUserMembers(first, last, age, fav, street, houseNo, postal, city),
                          first, last, age, fav, street, houseNo, postal, city)
    ensures FullUserInput(AgeSecond(FullUserMembers(first, last, age, fav, street, houseNo, postal, city)),
                          first, last, age, fav, street, houseNo, postal, city)
  {
    var all := FullUserMembers(first, last, age, fav, street, houseNo, postal, city);
    var moved := AgeSecond(all);
    forall m ensures m in moved <==> m in all {
      if m in all {
        var i :| 0 <= i < 5 && all[i] == m;
        assert i == 0 || i == 1 || i == 2 || i == 3 || i == 4;
        if i == 0 { assert moved[0] == m; }
        else if i == 1 { assert moved[2] == m; }
        else if i == 2 { assert moved[1] == m; }
        else if i == 3 { assert moved[3] == m; }
        else { assert moved[4] == m; }
      }
    }
  }

  /** "All values provided", with the age given second. */
  const AllValues := AgeSecond(FullUserMembers("Bob", "Doe", 32, 92.0, "Wide Street", 51, "11EAS", "Berlin"))

  const AllValuesUser := [
    VStr("Bob"), VPtr(VStr("Doe")), VInt(32), VFloat(92.0), VPtr(VRecord(AddressValue("Wide Street", 51, "11EAS", "Berlin")))]

  /** "Only required values are provided". */
  const RequiredOnly := [Member("FirstName", JStr("bob")), Member("age", JNum(55.0)), Member("FavNumber", JNum(0.0))]

  const RequiredOnlyUser := [VStr("bob"), VNil, VInt(55), VFloat(0.0), VNil]

  /** "Optional fields provided with zero value". */
  const ZeroOptionals := FullUserMembers("Bob", "", 99, 0.0, "Any Street", 0, "", "New York")

  const ZeroOptionalsUser := [
    VStr("Bob"), VPtr(VStr("")), VInt(99), VFloat(0.0), VPtr(VRecord(AddressValue("Any Street", 0, "", "New York")))]

  /** unmarshal_test.go, "All values provided": no errors, every field set. */
  lemma AllValuesDecode()
    ensures WellFormed(UserShape)
    ensures Decode(Ptr(UserShape), VPtr(Zero(UserShape)), JObj(AllValues), Std)
            == Outcome(VPtr(VRecord(AllValuesUser)), [])
  {
    UserFacts();
    FullUserOrders("Bob", "Doe", 32, 92.0, "Wide Street", 51, "11EAS", "Berlin");
    FullUserDecodes(UserShape.fields, AllValues, "Bob", "Doe", 32, 92.0, "Wide Street", 51, "11EAS", "Berlin");
    EntryDecode(UserShape.fields, Zero(UserShape), JObj(AllValues));
  }

  /** unmarshal_test.go, "Optional fields provided with zero value": the
      optional pointers are allocated and hold their zero values, and the
      required fields are non-empty, so there are no errors. */
  lemma ZeroOptionalsDecode()
    ensures WellFormed(UserShape)
    ensures Decode(Ptr(UserShape), VPtr(Zero(UserShape)), JObj(ZeroOptionals), Std)
            == Outcome(VPtr(VRecord(ZeroOptionalsUser)), [])
  {
    UserFacts();
    FullUserOrders("Bob", "", 99, 0.0, "Any Street", 0, "", "New York");
    FullUserDecodes(UserShape.fields, ZeroOptionals, "Bob", "", 99, 0.0, "Any Street", 0, "", "New York");
    EntryDecode(UserShape.fields, Zero(UserShape), JObj(ZeroOptionals));
  }

  /** The members of a User object holding only a first name, an age and a
      favourite number, in the order of the test case. */
  function ShortUserMembers(first: string, age: int, fav: real): seq<Member>
  {
    [Member("FirstName", JStr(first)), Member("age", JNum(age as real)), Member("FavNumber", JNum(fav))]
  }

  lemma ShortUserInput(first: string, age: int, fav: real)
    ensures var ms := ShortUserMembers(first, age, fav);
            !Invalid(JObj(ms)) && UnknownKeys(ms, UserKeys) == [] &&
            NotAllowedErrors("", UnknownKeys(ms, UserKeys)) == []
    ensures var raw := RawMap(ShortUserMembers(first, age, fav));
            "FirstName" in raw && raw["FirstName"] == JStr(first) &&
            "age" in raw && raw["age"] == JNum(age as real) &&
            "FavNumber" in raw && raw["FavNumber"] == JNum(fav) &&
            "LastName" !in raw && "Address" !in raw
  {
    var ms := ShortUserMembers(first, age, fav);
    assert forall i :: 0 <= i < |ms| ==> !Invalid(ms[i].value);
    MembersDeclared(ms, UserKeys);
    Lookup(ms, 0);
    Lookup(ms, 1);
    Lookup(ms, 2);
    Absent(ms, "LastName");
    Absent(ms, "Address");
  }

  /** The fields of such an object, each decoded on its own. */
  lemma ShortUserFields(fs: seq<Field>, raw: map<string, Json>, first: string, age: int, fav: real)
    requires UserSlots(fs) && first != ""
    requires "FirstName" in raw && raw["FirstName"] == JStr(first) &&
             "age" in raw && raw["age"] == JNum(age as real) &&
             "FavNumber" in raw && raw["FavNumber"] == JNum(fav) &&
             "LastName" !in raw && "Address" !in raw
    ensures UserFieldsGive(fs, raw, [VStr(first), VNil, VInt(age), VFloat(fav), VNil], [], [], [], [], [])
  {
    FirstNameField(fs[0], raw, first);
    OptionalFieldAbsent(fs[1], VNil, raw, "");
    AgeField(fs[2], raw, age);
    FavNumberField(fs[3], raw, fav);
    OptionalFieldAbsent(fs[4], VNil, raw, "");
  }

  /** Without `LastName` and `Address`, both optional, the two pointers stay
      nil and nothing is reported. */
  lemma ShortUserDecodes(fs: seq<Field>, first: string, age: int, fav: real)
    requires IsUser(fs) && first != ""
    ensures DecodeStruct(fs, Zero(Record(fs)), JObj(ShortUserMembers(first, age, fav)), "", Std)
            == Outcome(VRecord([VStr(first), VNil, VInt(age), VFloat(fav), VNil]), [])
  {
    var ms := ShortUserMembers(first, age, fav);
    var x := [VStr(first), VNil, VInt(age), VFloat(fav), VNil];
    ShortUserInput(first, age, fav);
    ShortUserFields(fs, RawMap(ms), first, age, fav);
    UserDecodesWith(fs, ms, x, [], [], [], [], [], []);
    OnlyErrors([]);
  }

  /** unmarshal_test.go, "Only required values are provided". */
  lemma RequiredOnlyDecode()
    ensures WellFormed(UserShape)
    ensures Decode(Ptr(UserShape), VPtr(Zero(UserShape)), JObj(RequiredOnly), Std)
            == Outcome(VPtr(VRecord(RequiredOnlyUser)), [])
  {
    UserFacts();
    ShortUserDecodes(UserShape.fields, "bob", 55, 0.0);
    EntryDecode(UserShape.fields, Zero(UserShape), JObj(RequiredOnly));
  }

  // ---------------------------------------------------------------------
  // TestSuccess, Box cases

  /** An item object with a name and, optionally, an amount. */
  function ItemMembers(name: string, amount: Option<int>): seq<Member>
  {
    [Member("name", JStr(name))] + if amount.Some? then [Member("amount", JNum(amount.value as real))] else []
  }

  function ItemValue(name: string, amount: Option<int>): Value
  {
    VRecord([VStr(name), if amount.Some? then VPtr(VInt(amount.value)) else VNil])
  }

  /** The sample decoder fills an item's fields from any raw map holding a
      name and, optionally, an amount. */
  lemma StdItemFields(fs: seq<Field>, raw: map<string, Json>, name: string, amount: Option<int>)
    requires IsItem(fs)
    requires "name" in raw && raw["name"] == JStr(name)
    requires amount.Some? ==> "amount" in raw && raw["amount"] == JNum(amount.value as real)
    requires amount.None? ==> "amount" !in raw
    ensures StdFields(fs, [VStr(""), VNil], raw, 2) == Decoded(ItemValue(name, amount))
  {
    var z := [VStr(""), VNil];
    var r1 := VRecord([VStr(name), VNil]);
    assert StdFields(fs, z, raw, 0) == Decoded(VRecord(z));
    assert StdValue(Str, VStr(""), JStr(name)) == Decoded(VStr(name));
    assert z[0 := VStr(name)] == r1.fields;
    assert StdField(fs, raw, 0, VRecord(z), None) == Decoded(r1);
    assert StdFields(fs, z, raw, 1) == Decoded(r1);
    if amount.Some? {
      var a := amount.value;
      assert (a as real).Floor == a;
      assert StdValue(Ptr(Int), VNil, JNum(a as real)) == Decoded(VPtr(VInt(a)));
      assert r1.fields[1 := VPtr(VInt(a))] == [VStr(name), VPtr(VInt(a))];
    }
  }

  /** The sample decoder fills an item from its object: the name, and the
      amount through a freshly allocated pointer when it is given. */
  lemma StdItemDecodes(fs: seq<Field>, name: string, amount: Option<int>)
    requires IsItem(fs)
    ensures !Invalid(JObj(ItemMembers(name, amount)))
    ensures StdValue(Record(fs), Zero(Record(fs)), JObj(ItemMembers(name, amount))) == Decoded(ItemValue(name, amount))
  {
    var ms := ItemMembers(name, amount);
    assert forall i :: 0 <= i < |ms| ==> !Invalid(ms[i].value);
    assert Zero(Record(fs)).fields == [VStr(""), VNil] by {
      ZeroFieldsAt(fs, 2, 0);
      ZeroFieldsAt(fs, 2, 1);
    }
    Lookup(ms, 0);
    if amount.Some? {
      Lookup(ms, 1);
    } else {
      Absent(ms, "amount");
    }
    StdItemFields(fs, RawMap(ms), name, amount);
  }

  /** The sample decoder decodes an array item by item from zero elements. */
  lemma {:induction false} StdItemsDecode(s: Shape, items: seq<Json>, ws: seq<Value>, n: nat)
    requires s.Slice? && n <= |items| == |ws|
    requires forall i :: 0 <= i < |items| ==> StdValue(s.elem, Zero(s.elem), items[i]) == Decoded(ws[i])
    ensures StdItems(s, items, n) == Decoded(VSlice(ws[..n]))
  {
    if n > 0 {
      StdItemsDecode(s, items, ws, n - 1);
      assert ws[..n] == ws[..n - 1] + [ws[n - 1]];
    }
  }

  /** An item given by its name and optional amount. */
  type ItemSpec = (string, Option<int>)

  function ItemJsons(its: seq<ItemSpec>): (js: seq<Json>)
    ensures |js| == |its|
  {
    seq(|its|, i requires 0 <= i < |its| => JObj(ItemMembers(its[i].0, its[i].1)))
  }

  function ItemValues(its: seq<ItemSpec>): (vs: seq<Value>)
    ensures |vs| == |its|
  {
    seq(|its|, i requires 0 <= i < |its| => ItemValue(its[i].0, its[i].1))
  }

  function ItemPtrValues(its: seq<ItemSpec>): (vs: seq<Value>)
    ensures |vs| == |its|
  {
    seq(|its|, i requires 0 <= i < |its| => VPtr(ItemValue(its[i].0, its[i].1)))
  }

  /** A list of items decodes, as a slice of records and as a slice of
      pointers to records. */
  lemma StdItemList(fs: seq<Field>, its: seq<ItemSpec>)
    requires IsItem(fs)
    ensures !Invalid(JArr(ItemJsons(its)))
    ensures Std(Slice(Record(fs)), VSlice([]), JArr(ItemJsons(its))) == Decoded(VSlice(ItemValues(its)))
    ensures Std(Slice(Ptr(Record(fs))), VSlice([]), JArr(ItemJsons(its))) == Decoded(VSlice(ItemPtrValues(its)))
  {
    var js := ItemJsons(its);
    forall i | 0 <= i < |its|
      ensures !Invalid(js[i])
      ensures StdValue(Record(fs), Zero(Record(fs)), js[i]) == Decoded(ItemValues(its)[i])
      ensures StdValue(Ptr(Record(fs)), Zero(Ptr(Record(fs))), js[i]) == Decoded(ItemPtrValues(its)[i])
    {
      StdItemDecodes(fs, its[i].0, its[i].1);
    }
    StdItemsDecode(Slice(Record(fs)), js, ItemValues(its), |js|);
    StdItemsDecode(Slice(Ptr(Record(fs))), js, ItemPtrValues(its), |js|);
    assert ItemValues(its)[..|js|] == ItemValues(its);
    assert ItemPtrValues(its)[..|js|] == ItemPtrValues(its);
  }

  /** A Box object: a name, a list of items and, optionally, a list of extra items. */
  function BoxMembers(name: string, items: seq<ItemSpec>, extra: Option<seq<ItemSpec>>): seq<Member>
  {
    [Member("name", JStr(name)), Member("items", JArr(ItemJsons(items)))] +
    if extra.Some? then [Member("extra", JArr(ItemJsons(extra.value)))] else []
  }

  function BoxValue(name: string, items: seq<ItemSpec>, extra: Option<seq<ItemSpec>>): seq<Value>
  {
    [VStr(name), VSlice(ItemValues(items)), VSlice(if extra.Some? then ItemPtrValues(extra.value) else [])]
  }

  /** The Box object's keys are declared, and its raw map holds the name,
      the items and, when given, the extra items. */
  lemma BoxInput(name: string, items: seq<ItemSpec>, extra: Option<seq<ItemSpec>>)
    ensures KeySet(BoxMembers(name, items, extra)) <= BoxKeys
    ensures var raw := RawMap(BoxMembers(name, items, extra));
            "name" in raw && raw["name"] == JStr(name) &&
            "items" in raw && raw["items"] == JArr(ItemJsons(items)) &&
            (extra.Some? ==> "extra" in raw && raw["extra"] == JArr(ItemJsons(extra.value))) &&
            (extra.None? ==> "extra" !in raw)
  {
    var ms := BoxMembers(name, items, extra);
    MembersDeclared(ms, BoxKeys);
    Lookup(ms, 0);
    Lookup(ms, 1);
    if extra.Some? {
      Lookup(ms, 2);
    } else {
      Absent(ms, "extra");
    }
  }

  /** The Box object is well formed when its item lists are. */
  lemma BoxWellFormedInput(fs: seq<Field>, name: string, items: seq<ItemSpec>, extra: Option<seq<ItemSpec>>)
    requires IsItem(fs)
    ensures !Invalid(JObj(BoxMembers(name, items, extra)))
  {
    var ms := BoxMembers(name, items, extra);
    StdItemList(fs, items);
    if extra.Some? {
      StdItemList(fs, extra.value);
    }
    assert forall i :: 0 <= i < |ms| ==> !Invalid(ms[i].value);
  }

  lemma BoxNameField(fs: seq<Field>, raw: map<string, Json>, name: string)
    requires IsBox(fs) && "name" in raw && raw["name"] == JStr(name) && name != ""
    ensures DecodeField(fs[0], VStr(""), raw, "", Std) == Outcome(VStr(name), [])
  {
    LeafField(fs[0], VStr(""), raw, "", VStr(name));
  }

  /** A non-empty item list fills the required `items` slice. */
  lemma BoxItemsField(fs: seq<Field>, raw: map<string, Json>, items: seq<ItemSpec>)
    requires IsBox(fs) && "items" in raw && raw["items"] == JArr(ItemJsons(items)) && items != []
    ensures DecodeField(fs[1], VSlice([]), raw, "", Std) == Outcome(VSlice(ItemValues(items)), [])
  {
    var elem := fs[1].shape.elem;
    assert fs[1].shape == Slice(Record(elem.fields));
    StdItemList(elem.fields, items);
    LeafField(fs[1], VSlice([]), raw, "", VSlice(ItemValues(items)));
  }

  /** The optional `extra` slice of pointers is filled when given and
      otherwise stays nil. */
  lemma BoxExtraField(fs: seq<Field>, raw: map<string, Json>, extra: Option<seq<ItemSpec>>)
    requires IsBox(fs)
    requires extra.Some? ==> "extra" in raw && raw["extra"] == JArr(ItemJsons(extra.value))
    requires extra.None? ==> "extra" !in raw
    ensures DecodeField(fs[2], VSlice([]), raw, "", Std)
            == Outcome(VSlice(if extra.Some? then ItemPtrValues(extra.value) else []), [])
  {
    var elem := fs[1].shape.elem;
    assert fs[2].shape == Slice(Ptr(Record(elem.fields)));
    if extra.Some? {
      StdItemList(elem.fields, extra.value);
      LeafField(fs[2], VSlice([]), raw, "", VSlice(ItemPtrValues(extra.value)));
    } else {
      OptionalFieldAbsent(fs[2], VSlice([]), raw, "");
    }
  }

  /** A Box with a name and a non-empty item list decodes with no errors;
      absent extra items leave a nil slice. */
  lemma BoxDecodes(fs: seq<Field>, name: string, items: seq<ItemSpec>, extra: Option<seq<ItemSpec>>)
    requires IsBox(fs) && name != "" && items != []
    ensures DecodeStruct(fs, Zero(Record(fs)), JObj(BoxMembers(name, items, extra)), "", Std)
            == Outcome(VRecord(BoxValue(name, items, extra)), [])
  {
    var ms := BoxMembers(name, items, extra);
    var raw := RawMap(ms);
    var x := BoxValue(name, items, extra);
    BoxWellFormedInput(fs[1].shape.elem.fields, name, items, extra);
    BoxInput(name, items, extra);
    BoxDeclared(fs);
    BoxZero(fs);
    BoxNameField(fs, raw, name);
    BoxItemsField(fs, raw, items);
    BoxExtraField(fs, raw, extra);
    var z := Zero(Record(fs)).fields;
    assert forall i :: 0 <= i < 3 ==> DecodeField(fs[i], z[i], raw, "", Std) == Outcome(x[i], []) by {
      forall i | 0 <= i < 3 ensures DecodeField(fs[i], z[i], raw, "", Std) == Outcome(x[i], []) {
        if i == 0 {} else if i == 1 {} else {}
      }
    }
    DecodesTo(fs, Zero(Record(fs)), ms, "", x);
  }

  /** unmarshal_test.go, "Array with all elements". */
  lemma ArrayAllElementsDecode()
    ensures WellFormed(BoxShape)
    ensures Decode(Ptr(BoxShape), VPtr(Zero(BoxShape)),
                   JObj(BoxMembers("whatever", [("first", Some(4)), ("second", None)], Some([("first", None)]))), Std)
            == Outcome(VPtr(VRecord([
                 VStr("whatever"),
                 VSlice([VRecord([VStr("first"), VPtr(VInt(4))]), VRecord([VStr("second"), VNil])]),
                 VSlice([VPtr(VRecord([VStr("first"), VNil]))])])), [])
  {
    var items, extra := [("first", Some(4)), ("second", None)], [("first", None)];
    assert ItemValues(items) == [VRecord([VStr("first"), VPtr(VInt(4))]), VRecord([VStr("second"), VNil])];
    assert ItemPtrValues(extra) == [VPtr(VRecord([VStr("first"), VNil]))];
    BoxFacts();
    BoxDecodes(BoxShape.fields, "whatever", items, Some(extra));
    EntryDecode(BoxShape.fields, Zero(BoxShape), JObj(BoxMembers("whatever", items, Some(extra))));
  }

  /** unmarshal_test.go, "No value for array of pointers": the optional
      `extra` list is absent and stays nil. */
  lemma NoPointerArrayDecode()
    ensures WellFormed(BoxShape)
    ensures Decode(Ptr(BoxShape), VPtr(Zero(BoxShape)),
                   JObj(BoxMembers("whatever", [("first", Some(4))], None)), Std)
            == Outcome(VPtr(VRecord([
                 VStr("whatever"), VSlice([VRecord([VStr("first"), VPtr(VInt(4))])]), VSlice([])])), [])
  {
    var items := [("first", Some(4))];
    assert ItemValues(items) == [VRecord([VStr("first"), VPtr(VInt(4))])];
    BoxFacts();
    BoxDecodes(BoxShape.fields, "whatever", items, None);
    EntryDecode(BoxShape.fields, Zero(BoxShape), JObj(BoxMembers("whatever", items, None)));
  }

  // ---------------------------------------------------------------------
  // Violations

  /** A User object holding only an age. */
  function AgeOnlyMembers(age: int): seq<Member>
  {
    [Member("age", JNum(age as real))]
  }

  lemma AgeOnlyInput(age: int)
    ensures var ms := AgeOnlyMembers(age);
            !Invalid(JObj(ms)) && UnknownKeys(ms, UserKeys) == [] &&
            NotAllowedErrors("", UnknownKeys(ms, UserKeys)) == []
    ensures var raw := RawMap(AgeOnlyMembers(age));
            "age" in raw && raw["age"] == JNum(age as real) &&
            "FirstName" !in raw && "LastName" !in raw && "FavNumber" !in raw && "Address" !in raw
  {
    var ms := AgeOnlyMembers(age);
    assert forall i :: 0 <= i < |ms| ==> !Invalid(ms[i].value);
    MembersDeclared(ms, UserKeys);
    Lookup(ms, 0);
    Absent(ms, "FirstName");
    Absent(ms, "LastName");
    Absent(ms, "FavNumber");
    Absent(ms, "Address");
  }

  /** The fields of such an object, each decoded on its own. */
  lemma AgeOnlyFields(fs: seq<Field>, raw: map<string, Json>, age: int)
    requires UserSlots(fs)
    requires "age" in raw && raw["age"] == JNum(age as real) &&
             "FirstName" !in raw && "LastName" !in raw && "FavNumber" !in raw && "Address" !in raw
    ensures UserFieldsGive(fs, raw, [VStr(""), VNil, VInt(age), VFloat(0.0), VNil],
                           [RequiredError("FirstName")], [], [], [], [])
  {
    FirstNameAbsent(fs[0], raw);
    OptionalFieldAbsent(fs[1], VNil, raw, "");
    AgeField(fs[2], raw, age);
    OptionalFieldAbsent(fs[3], VFloat(0.0), raw, "");
    OptionalFieldAbsent(fs[4], VNil, raw, "");
  }

  lemma MissingFirstName(fs: seq<Field>, age: int)
    requires IsUser(fs)
    ensures DecodeStruct(fs, Zero(Record(fs)), JObj(AgeOnlyMembers(age)), "", Std)
            == Outcome(VRecord([VStr(""), VNil, VInt(age), VFloat(0.0), VNil]), [RequiredError("FirstName")])
  {
    var ms := AgeOnlyMembers(age);
    var x := [VStr(""), VNil, VInt(age), VFloat(0.0), VNil];
    var e := [RequiredError("FirstName")];
    AgeOnlyInput(age);
    AgeOnlyFields(fs, RawMap(ms), age);
    UserDecodesWith(fs, ms, x, e, [], [], [], [], []);
    OnlyErrors(e);
  }

  /** `{"age": n}`: the missing first name is the one violation, reported
      at its wire name; the optional fields stay as they were. */
  lemma MissingFirstNameDecode(age: int)
    ensures WellFormed(UserShape)
    ensures Decode(Ptr(UserShape), VPtr(Zero(UserShape)), JObj(AgeOnlyMembers(age)), Std)
            == Outcome(VPtr(VRecord([VStr(""), VNil, VInt(age), VFloat(0.0), VNil])), [RequiredError("FirstName")])
  {
    UserFacts();
    MissingFirstName(UserShape.fields, age);
    EntryDecode(UserShape.fields, Zero(UserShape), JObj(AgeOnlyMembers(age)));
  }

  /** A User object holding a first name, an age and an address object. */
  function WithAddressMembers(first: string, age: int, addr: Json): seq<Member>
  {
    [Member("FirstName", JStr(first)), Member("age", JNum(age as real)), Member("Address", addr)]
  }

  lemma WithAddressInput(first: string, age: int, addr: Json)
    requires !Invalid(addr)
    ensures var ms := WithAddressMembers(first, age, addr);
            !Invalid(JObj(ms)) && UnknownKeys(ms, UserKeys) == [] &&
            NotAllowedErrors("", UnknownKeys(ms, UserKeys)) == []
    ensures var raw := RawMap(WithAddressMembers(first, age, addr));
            "FirstName" in raw && raw["FirstName"] == JStr(first) &&
            "age" in raw && raw["age"] == JNum(age as real) &&
            "Address" in raw && raw["Address"] == addr &&
            "LastName" !in raw && "FavNumber" !in raw
  {
    var ms := WithAddressMembers(first, age, addr);
    assert forall i :: 0 <= i < |ms| ==> !Invalid(ms[i].value);
    MembersDeclared(ms, UserKeys);
    Lookup(ms, 0);
    Lookup(ms, 1);
    Lookup(ms, 2);
    Absent(ms, "LastName");
    Absent(ms, "FavNumber");
  }

  /** The fields of such an object, each decoded on its own. */
  lemma WithAddressFields(fs: seq<Field>, raw: map<string, Json>, first: string, age: int, w: Value, e: Errors)
    requires UserSlots(fs) && first != ""
    requires "FirstName" in raw && raw["FirstName"] == JStr(first) &&
             "age" in raw && raw["age"] == JNum(age as real) &&
             "LastName" !in raw && "FavNumber" !in raw
    requires DecodeField(fs[4], VNil, raw, "", Std) == Outcome(VPtr(w), e)
    ensures UserFieldsGive(fs, raw, [VStr(first), VNil, VInt(age), VFloat(0.0), VPtr(w)], [], [], [], [], e)
  {
    FirstNameField(fs[0], raw, first);
    OptionalFieldAbsent(fs[1], VNil, raw, "");
    AgeField(fs[2], raw, age);
    OptionalFieldAbsent(fs[3], VFloat(0.0), raw, "");
  }

  /** The same fields, with the address field taken from what the address
      object decodes to. */
  lemma WithAddressParts(fs: seq<Field>, raw: map<string, Json>, first: string, age: int, addr: Json,
                         w: Value, e: Errors)
    requires UserSlots(fs) && first != ""
    requires "FirstName" in raw && raw["FirstName"] == JStr(first) &&
             "age" in raw && raw["age"] == JNum(age as real) &&
             "Address" in raw && raw["Address"] == addr &&
             "LastName" !in raw && "FavNumber" !in raw
    requires DecodeStruct(fs[4].shape.target.fields, Zero(fs[4].shape.target), addr, "Address", Std)
             == Outcome(w, e)
    ensures UserFieldsGive(fs, raw, [VStr(first), VNil, VInt(age), VFloat(0.0), VPtr(w)], [], [], [], [], e)
  {
    AddressObjectField(fs[4], raw, addr, w, e);
    WithAddressFields(fs, raw, first, age, w, e);
  }

  /** Whatever the address object reports is what the User reports: the
      other fields are clean. */
  lemma WithAddressDecodes(fs: seq<Field>, first: string, age: int, addr: Json, w: Value, es: Errors)
    requires IsUser(fs) && first != "" && !Invalid(addr)
    requires DecodeStruct(fs[4].shape.target.fields, Zero(fs[4].shape.target), addr, "Address", Std)
             == Outcome(w, es)
    ensures DecodeStruct(fs, Zero(Record(fs)), JObj(WithAddressMembers(first, age, addr)), "", Std)
            == Outcome(VRecord([VStr(first), VNil, VInt(age), VFloat(0.0), VPtr(w)]), es)
  {
    var ms := WithAddressMembers(first, age, addr);
    var x := [VStr(first), VNil, VInt(age), VFloat(0.0), VPtr(w)];
    WithAddressInput(first, age, addr);
    WithAddressParts(fs, RawMap(ms), first, age, addr, w, es);
    UserDecodesWith(fs, ms, x, [], [], [], [], es, []);
    OnlyErrors(es);
  }

  /** The street of the address, at the top level, is `Address.Street`. */
  lemma StreetPath()
    ensures FieldPath("Address", "Street") == "Address.Street"
  {
  }

  /** A User object whose Address is `{}`: the street the address misses is
      reported at its dotted path. */
  lemma EmptyAddress(fs: seq<Field>, first: string, age: int)
    requires IsUser(fs) && HasAddress(fs) && first != ""
    ensures DecodeStruct(fs, Zero(Record(fs)), JObj(WithAddressMembers(first, age, JObj([]))), "", Std)
            == Outcome(VRecord([VStr(first), VNil, VInt(age), VFloat(0.0), VPtr(VRecord([VStr(""), VNil, VNil, VNil]))]),
                       [RequiredError("Address.Street")])
  {
    AddressNoStreet(fs[4].shape.target.fields, "Address");
    StreetPath();
    WithAddressDecodes(fs, first, age, JObj([]), VRecord([VStr(""), VNil, VNil, VNil]),
                       [RequiredError("Address.Street")]);
  }

  /** `{"FirstName": .., "age": .., "Address": {}}` decoded into a User. */
  lemma EmptyAddressDecode(first: string, age: int)
    requires first != ""
    ensures WellFormed(UserShape)
    ensures Decode(Ptr(UserShape), VPtr(Zero(UserShape)), JObj(WithAddressMembers(first, age, JObj([]))), Std)
            == Outcome(VPtr(VRecord([VStr(first), VNil, VInt(age), VFloat(0.0), VPtr(VRecord([VStr(""), VNil, VNil, VNil]))])),
                       [RequiredError("Address.Street")])
  {
    UserFacts();
    EmptyAddress(UserShape.fields, first, age);
    EntryDecode(UserShape.fields, Zero(UserShape), JObj(WithAddressMembers(first, age, JObj([]))));
  }

  /** A User object whose Address is `{"Street": ""}`: the empty street is
      reported as `Street`, not as `Address.Street`, because a required
      field that is present but empty is reported under its bare wire name. */
  lemma EmptyStreet(fs: seq<Field>, first: string, age: int)
    requires IsUser(fs) && HasAddress(fs) && first != ""
    ensures DecodeStruct(fs, Zero(Record(fs)), JObj(WithAddressMembers(first, age, JObj([Member("Street", JStr(""))]))), "", Std)
            == Outcome(VRecord([VStr(first), VNil, VInt(age), VFloat(0.0), VPtr(VRecord([VStr(""), VNil, VNil, VNil]))]),
                       [RequiredError("Street")])
  {
    var addr := JObj([Member("Street", JStr(""))]);
    AddressEmptyStreet(fs[4].shape.target.fields, "Address");
    assert !Invalid(addr) by {
      assert forall i :: 0 <= i < |addr.members| ==> !Invalid(addr.members[i].value);
    }
    WithAddressDecodes(fs, first, age, addr, VRecord([VStr(""), VNil, VNil, VNil]), [RequiredError("Street")]);
  }

  /** `{"FirstName": .., "age": .., "Address": {"Street": ""}}` decoded into
      a User. */
  lemma EmptyStreetDecode(first: string, age: int)
    requires first != ""
    ensures WellFormed(UserShape)
    ensures Decode(Ptr(UserShape), VPtr(Zero(UserShape)),
                   JObj(WithAddressMembers(first, age, JObj([Member("Street", JStr(""))]))), Std)
            == Outcome(VPtr(VRecord([VStr(first), VNil, VInt(age), VFloat(0.0), VPtr(VRecord([VStr(""), VNil, VNil, VNil]))])),
                       [RequiredError("Street")])
  {
    UserFacts();
    EmptyStreet(UserShape.fields, first, age);
    EntryDecode(UserShape.fields, Zero(UserShape), JObj(WithAddressMembers(first, age, JObj([Member("Street", JStr(""))]))));
  }

  /** A User object with a first name, an age and a key User does not declare. */
  function NicknameMembers(first: string, age: int, nick: string): seq<Member>
  {
    [Member("FirstName", JStr(first)), Member("age", JNum(age as real)), Member("Nickname", JStr(nick))]
  }

  lemma NicknameInput(first: string, age: int, nick: string)
    ensures var ms := NicknameMembers(first, age, nick);
            !Invalid(JObj(ms)) && UnknownKeys(ms, UserKeys) == ["Nickname"] &&
            NotAllowedErrors("", UnknownKeys(ms, UserKeys)) == [NotAllowedError("Nickname")]
    ensures var raw := RawMap(NicknameMembers(first, age, nick));
            "FirstName" in raw && raw["FirstName"] == JStr(first) &&
            "age" in raw && raw["age"] == JNum(age as real) &&
            "LastName" !in raw && "FavNumber" !in raw && "Address" !in raw
  {
    var ms := NicknameMembers(first, age, nick);
    assert forall i :: 0 <= i < |ms| ==> !Invalid(ms[i].value);
    Lookup(ms, 0);
    Lookup(ms, 1);
    Absent(ms, "LastName");
    Absent(ms, "FavNumber");
    Absent(ms, "Address");
    assert UnknownKeys(ms[..2], UserKeys) == [] by {
      MembersDeclared(ms[..2], UserKeys);
    }
    assert ["Nickname"][..0] == [];
  }

  /** The fields of such an object, each decoded on its own. */
  lemma FirstAgeFields(fs: seq<Field>, raw: map<string, Json>, first: string, age: int)
    requires UserSlots(fs) && first != ""
    requires "FirstName" in raw && raw["FirstName"] == JStr(first) &&
             "age" in raw && raw["age"] == JNum(age as real) &&
             "LastName" !in raw && "FavNumber" !in raw && "Address" !in raw
    ensures UserFieldsGive(fs, raw, [VStr(first), VNil, VInt(age), VFloat(0.0), VNil], [], [], [], [], [])
  {
    FirstNameField(fs[0], raw, first);
    OptionalFieldAbsent(fs[1], VNil, raw, "");
    AgeField(fs[2], raw, age);
    OptionalFieldAbsent(fs[3], VFloat(0.0), raw, "");
    OptionalFieldAbsent(fs[4], VNil, raw, "");
  }

  lemma UnknownKey(fs: seq<Field>, first: string, age: int, nick: string)
    requires IsUser(fs) && first != ""
    ensures DecodeStruct(fs, Zero(Record(fs)), JObj(NicknameMembers(first, age, nick)), "", Std)
            == Outcome(VRecord([VStr(first), VNil, VInt(age), VFloat(0.0), VNil]), [NotAllowedError("Nickname")])
  {
    var ms := NicknameMembers(first, age, nick);
    var x := [VStr(first), VNil, VInt(age), VFloat(0.0), VNil];
    NicknameInput(first, age, nick);
    FirstAgeFields(fs, RawMap(ms), first, age);
    UserDecodesWith(fs, ms, x, [], [], [], [], [], [NotAllowedError("Nickname")]);
    OnlyErrors([NotAllowedError("Nickname")]);
  }

  /** An undeclared key is a NotAllowed violation at its path; the declared
      fields decode as usual. */
  lemma UnknownKeyDecode(first: string, age: int, nick: string)
    requires first != ""
    ensures WellFormed(UserShape)
    ensures Decode(Ptr(UserShape), VPtr(Zero(UserShape)), JObj(NicknameMembers(first, age, nick)), Std)
            == Outcome(VPtr(VRecord([VStr(first), VNil, VInt(age), VFloat(0.0), VNil])), [NotAllowedError("Nickname")])
  {
    UserFacts();
    UnknownKey(UserShape.fields, first, age, nick);
    EntryDecode(UserShape.fields, Zero(UserShape), JObj(NicknameMembers(first, age, nick)));
  }

  /** A User object whose age is given as a string. */
  function AgeTextMembers(first: string, text: string): seq<Member>
  {
    [Member("FirstName", JStr(first)), Member("age", JStr(text))]
  }

  lemma AgeTextInput(first: string, text: string)
    ensures var ms := AgeTextMembers(first, text);
            !Invalid(JObj(ms)) && UnknownKeys(ms, UserKeys) == [] &&
            NotAllowedErrors("", UnknownKeys(ms, UserKeys)) == []
    ensures var raw := RawMap(AgeTextMembers(first, text));
            "FirstName" in raw && raw["FirstName"] == JStr(first) &&
            "age" in raw && raw["age"] == JStr(text) &&
            "LastName" !in raw && "FavNumber" !in raw && "Address" !in raw
  {
    var ms := AgeTextMembers(first, text);
    assert forall i :: 0 <= i < |ms| ==> !Invalid(ms[i].value);
    MembersDeclared(ms, UserKeys);
    Lookup(ms, 0);
    Lookup(ms, 1);
    Absent(ms, "LastName");
    Absent(ms, "FavNumber");
    Absent(ms, "Address");
  }

  /** The fields of such an object, each decoded on its own. */
  lemma AgeTextFields(fs: seq<Field>, raw: map<string, Json>, first: string, text: string)
    requires UserSlots(fs) && first != ""
    requires "FirstName" in raw && raw["FirstName"] == JStr(first) &&
             "age" in raw && raw["age"] == JStr(text) &&
             "LastName" !in raw && "FavNumber" !in raw && "Address" !in raw
    ensures UserFieldsGive(fs, raw, [VStr(first), VNil, VInt(0), VFloat(0.0), VNil],
                           [], [], [InvalidTypeError("age", "int64", "string")], [], [])
  {
    FirstNameField(fs[0], raw, first);
    OptionalFieldAbsent(fs[1], VNil, raw, "");
    AgeMismatch(fs[2], raw, text);
    OptionalFieldAbsent(fs[3], VFloat(0.0), raw, "");
    OptionalFieldAbsent(fs[4], VNil, raw, "");
  }

  lemma AgeAsText(fs: seq<Field>, first: string, text: string)
    requires IsUser(fs) && first != ""
    ensures DecodeStruct(fs, Zero(Record(fs)), JObj(AgeTextMembers(first, text)), "", Std)
            == Outcome(VRecord([VStr(first), VNil, VInt(0), VFloat(0.0), VNil]),
                       [InvalidTypeError("age", "int64", "string")])
  {
    var ms := AgeTextMembers(first, text);
    var x := [VStr(first), VNil, VInt(0), VFloat(0.0), VNil];
    var e := [InvalidTypeError("age", "int64", "string")];
    AgeTextInput(first, text);
    AgeTextFields(fs, RawMap(ms), first, text);
    UserDecodesWith(fs, ms, x, [], [], e, [], [], []);
    OnlyErrors(e);
  }

  /** An age given as a string is an InvalidType violation naming the Go
      type expected and the JSON type found; the age keeps its zero value. */
  lemma AgeAsTextDecode(first: string, text: string)
    requires first != ""
    ensures WellFormed(UserShape)
    ensures Decode(Ptr(UserShape), VPtr(Zero(UserShape)), JObj(AgeTextMembers(first, text)), Std)
            == Outcome(VPtr(VRecord([VStr(first), VNil, VInt(0), VFloat(0.0), VNil])),
                       [InvalidTypeError("age", "int64", "string")])
  {
    UserFacts();
    AgeAsText(UserShape.fields, first, text);
    EntryDecode(UserShape.fields, Zero(UserShape), JObj(AgeTextMembers(first, text)));
  }
}
