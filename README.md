# strictjson: a verified model of the strict decoder

strictjson decodes a JSON document into a Go struct. It reports every
violation it finds, not just the first. The violations are:

- a required field that is missing, or present but empty;
- a key the struct does not declare;
- a value of the wrong JSON type.

Each violation carries the dotted path of the field, such as
`Address.Street`. Leaves (strings, numbers, slices, maps) are handed to
the standard library decoder. Structs, including structs behind
pointers, are walked field by field by the engine itself. The result is
an ordered error list. It can be rendered as a count (`Error()`) or as a
listing with one line per error (`String()`).

The project models this engine in Dafny:

- `json.dfy`, module `JsonTree`. The already-parsed input, and the one
  parse the engine performs itself: an object read as a map from keys to
  raw sub-documents (`map[string]json.RawMessage`). Duplicate keys keep
  the last value.
- `shapes.dfy`, module `Shapes`. The Go kinds the engine dispatches on,
  in place of reflection. Also the destination values and the zero value
  of each shape.
- `errors.go` becomes `errors.dfy`, module `StrictErrors`:
  - the error datatype;
  - the four `With…` helpers;
  - the messages;
  - the count summary of `Error()`;
  - `String()`, both as a listing function and as a method with a loop.
- `unmarshal.go` is split in three:
  - `fields.dfy`, module `Fields`. The tag helpers `jsonName`,
    `isRequired`, `definition`, `IsEmpty` and `fieldPath`, over a model
    of `strings.Split` and `strings.SplitN`.
  - `strict.dfy`, module `Strict`. The engine as functions: `Decode`,
    `DecodeValue`, `DecodeStruct` and the field loop as
    `FieldsUpTo`/`DecodeField`. The engine's promises are proved about
    these functions.
  - `engine.dfy`, module `Engine`. The engine as the source runs it:
    - methods with loops that append to the error list;
    - recursion through `unmarshal`;
    - a scan of the raw map's keys in an unspecified order.

    Each method is proved to produce the value given by `Strict`. Its
    errors equal the function's as a multiset.
- `leaf.dfy`, module `SampleLeaf`. A sample of the standard decoder
  (`Std`), used only to compute concrete cases.
- `scenarios.dfy`, module `Scenarios`. Each case of `unmarshal_test.go`
  is proved to decode to the expected struct with no errors. A few
  violation cases are also proved, each with its exact error list.

## Model

| member | source | states |
|---|---|---|
| StrictErrors.WithErr | errors.go:11-13 | the list grows by one: the old errors come first, then the given error |
| StrictErrors.WithNotAllowed | errors.go:15-19 | the old errors are kept, then a NotAllowed error carrying the given path is appended |
| StrictErrors.WithRequired | errors.go:21-25 | the old errors are kept, then a Required error carrying the given path is appended |
| StrictErrors.WithInvalidType | errors.go:27-33 | the old errors are kept, then an InvalidType error carrying the path, the expected type and what was found is appended |
| StrictErrors.Message | errors.go:64-94 | the exact message of each violation kind: "field is required: P", "field is not allowed: P", "invalid type: P: expected T, got K" |
| StrictErrors.PathMessagesDistinct | errors.go:70-81 | a Required or NotAllowed message determines the error: same message, same kind and same path |
| StrictErrors.InvalidTypeMessageDistinct | errors.go:70-94 | an InvalidType message never equals a Required or NotAllowed message |
| StrictErrors.NatToString | errors.go:60 | `%d` writes one or more decimal digits, with no leading zero unless the number is 0 |
| StrictErrors.ParseNatToString | errors.go:60 | the decimal rendering of a count reads back as the same count |
| StrictErrors.Summary | errors.go:53-62 | `Error()` is "no errors" for none, "1 error" for one, and "N errors" otherwise |
| StrictErrors.SummaryCountRoundTrip | errors.go:53-62 | the count can be read back from `Error()`'s text for every list length |
| StrictErrors.ListingEmpty | errors.go:38-40 | `String()` of an empty list is "no errors" with no lines after it |
| StrictErrors.ListingExtendsSummary | errors.go:36-51 | for a non-empty list, `String()` is the `Error()` summary, a colon and newline, then the lines |
| StrictErrors.LinesAppend | errors.go:47-49 | the listing of a concatenation is the concatenation of the listings |
| StrictErrors.LinesInOrder | errors.go:47-49 | error i gets its own line, and that line sits between the lines of the errors before it and those after it |
| StrictErrors.Render | errors.go:35-51 | the buffer loop builds exactly the listing |
| Fields.IndexOfFirstOccurrence | unmarshal.go:184 | the separator search stops at the first occurrence of the separator, or at the end of the text |
| Fields.HeadSpec | unmarshal.go:184 | the first part is a prefix without the separator, ending where the separator is or at the end of the text |
| Fields.SplitSpec | unmarshal.go:130 | `strings.Split`: the first part is the head, no part holds the separator, and joining the parts gives back the tag |
| Fields.SplitJoin | unmarshal.go:130 | splitting a join of separator-free parts gives the parts back |
| Fields.SplitN2Spec | unmarshal.go:184 | `strings.SplitN(…, 2)`: the first part is the head, there are two parts exactly when the separator occurs, and joining them gives back the tag |
| Fields.JsonNameSpec | unmarshal.go:180-191 | the wire name is the tag's first part, or the Go identifier when that part is empty or there is no tag |
| Fields.FieldPathShape | unmarshal.go:193-199 | the path is the bare name at the root; below the root it is the parent path, a dot, then the name |
| Fields.FieldPathInjective | unmarshal.go:193-199 | under one parent, two names give the same path only when they are equal |
| Fields.IsRequired | unmarshal.go:158-178 | required exactly when: not a pointer, the name is not "-", no "omitempty" option, and for a slice, the element is not a pointer |
| Fields.Definition | unmarshal.go:128-141 | the definition holds the field's wire name and its required flag |
| Fields.TagParts | unmarshal.go:128-191 | for a tag given as its comma-separated parts, both the wire name and the required policy read directly from those parts |
| Fields.RequiredCases | unmarshal.go:158-178 | each branch of `isRequired` separately: pointer, "-", omitempty, slice of pointers, and the default |
| Fields.IsEmptyByKind | unmarshal.go:143-156 | strings, slices and maps are empty exactly when their length is 0; numbers and structs are never empty; a nil pointer is empty, and a non-nil one is empty when its target is |
| Fields.ZeroEmpty | unmarshal.go:143-156 | a zero value is empty exactly for pointers, strings, slices and maps |
| Fields.RequiredEmptiness | unmarshal.go:107-110 | for a required field, the emptiness check fires only on an empty string, slice or map |
| JsonTree.ParseObjectCases | unmarshal.go:66-72 | decoding into the raw map: a syntax error for malformed input; an object gives its members; null gives an empty map; anything else is a type mismatch that names its kind |
| JsonTree.RawMapKeys | unmarshal.go:66-67 | the raw map's keys are exactly the object's keys |
| JsonTree.RawMapLastWins | unmarshal.go:66-67 | for a duplicated key, the raw map holds the last value |
| JsonTree.UnknownKeysMembers | unmarshal.go:113-117 | the undeclared keys are exactly the input keys that are not declared, each listed once |
| Shapes.Zero | unmarshal.go:97-98 | the zero value conforms to its shape, and a pointer's zero value is nil |
| Shapes.ZeroFieldsAt | unmarshal.go:97-98 | a zeroed struct holds each field's zero value |
| Shapes.Pointee | unmarshal.go:30-35 | following pointers ends at a non-pointer kind (given no pointer to a pointer) |
| Strict.Decode | unmarshal.go:9-27 | anything but a non-nil pointer to a struct gives one InvalidUnmarshal error and leaves the destination unchanged; otherwise the struct is decoded at the root path |
| Strict.EntryCheck | unmarshal.go:9-27 | InvalidUnmarshal is reported exactly when the destination is not a non-nil pointer to a struct |
| Strict.DecodeValue | unmarshal.go:29-40 | a struct target, directly or behind pointers, yields a struct, or a pointer to one; `Strict.StructDispatch` states which one |
| Strict.LeafDispatch | unmarshal.go:41-62 | leaf kinds go to the leaf decoder: success adds no error; a type mismatch adds one InvalidType error at the path; any other failure is passed through; unsupported kinds add one UnsupportedType error |
| Strict.StructDispatch | unmarshal.go:30-40 | a struct, directly or behind pointers, goes to struct decoding at the same path: the errors are the struct decoder's, and the value is its struct, re-wrapped in the pointer |
| Strict.DecodeStruct | unmarshal.go:65-72 | always a struct with one slot per field; malformed input gives one syntax error; a non-object gives one InvalidType error naming the raw map type |
| Strict.NullIsEmptyObject | unmarshal.go:66-72 | `null` decodes exactly like `{}` |
| Strict.AbsentField | unmarshal.go:88-94 | an absent field is left unchanged and gets a Required error at its full path exactly when it is required |
| Strict.PresentPointerAllocated | unmarshal.go:96-102 | a present pointer field is decoded into a freshly allocated zero target |
| Strict.PresentField | unmarshal.go:96-110 | a present field takes the decoded value; its errors are the inner ones if any; otherwise there is a Required error under the bare name if the field is required and the value is empty |
| Strict.FieldsUntouched | unmarshal.go:82-111 | the loop has not yet touched the fields after the current index |
| Strict.FieldsValues | unmarshal.go:82-111 | after the loop, each field holds what decoding that field alone gives |
| Strict.FieldsErrorsKept | unmarshal.go:102-104 | every error of every field ends up in the struct's error list |
| Strict.StructAbsentField | unmarshal.go:88-94 | a missing required field is reported at its path; a missing optional field keeps its value |
| Strict.StructFields | unmarshal.go:82-111 | each field of the decoded struct is its own decoding, and that field's errors are among the struct's |
| Strict.StructUnknownKeys | unmarshal.go:113-117 | after the field errors come the NotAllowed errors; each undeclared key is reported once, and nothing else is reported |
| Strict.SameKeysSameErrors | unmarshal.go:113-117 | two scans of the same unknown keys report the same errors, in whatever order |
| Strict.NotAllowedCount | unmarshal.go:113-117 | the scan reports a key once if it is undeclared, and never otherwise |
| Strict.NotAllowedKey | unmarshal.go:113-117 | every NotAllowed error names one of the scanned keys |
| Strict.NotAllowedSnoc | unmarshal.go:115 | one more undeclared key means one more `WithNotAllowed` call |
| Strict.FieldsClean | unmarshal.go:82-111 | the field loop reports nothing exactly when no field reports anything |
| Strict.StructClean | unmarshal.go:65-120 | a struct decodes without errors exactly when every key is declared and every field decodes cleanly |
| Strict.ValueNoEntryError | unmarshal.go:29-63 | decoding a value below the root never reports InvalidUnmarshal |
| Strict.StructNoEntryError | unmarshal.go:65-120 | decoding below the root never reports InvalidUnmarshal |
| Engine.Unmarshal | unmarshal.go:9-27 | the method gives the value of `Decode` and its errors, up to order; a bad destination gives exactly one InvalidUnmarshal error |
| Engine.UnmarshalValue | unmarshal.go:29-63 | the method gives the value of `DecodeValue` and its errors, up to order |
| Engine.UnmarshalStruct | unmarshal.go:65-120 | the method gives the value of `DecodeStruct` and its errors, up to order |
| Engine.UnmarshalFields | unmarshal.go:80-111 | the field loop matches `FieldsUpTo` over all fields, and collects exactly the declared names |
| Engine.NextField | unmarshal.go:82-111 | one loop iteration advances agreement with `FieldsUpTo` from i to i + 1, and records the field's wire name |
| Engine.UnmarshalField | unmarshal.go:83-110 | one field gives the value of `DecodeField`, and appends its errors to those gathered so far |
| Engine.ReportNotAllowed | unmarshal.go:113-117 | a scan of the raw map in any order keeps the earlier errors as a prefix and appends after them the NotAllowed errors of exactly the undeclared keys, in some order |
| Scenarios.AllValuesDecode | unmarshal_test.go:45-77 | the "All values provided" document decodes into the expected User, with no errors |
| Scenarios.RequiredOnlyDecode | unmarshal_test.go:78-92 | the "Only required values" document decodes into the expected User, with no errors |
| Scenarios.ZeroOptionalsDecode | unmarshal_test.go:93-125 | "Optional fields provided with zero value" decodes, with no errors |
| Scenarios.ArrayAllElementsDecode | unmarshal_test.go:126-150 | the "Array with all elements" Box decodes, with no errors |
| Scenarios.NoPointerArrayDecode | unmarshal_test.go:151-167 | the "No value for array of pointers" Box decodes, with no errors; Extra is left at its zero value (a nil slice in Go, `VSlice([])` in the model) |
| Scenarios.FullUserDecodes | unmarshal_test.go:45-77 | any full User document (all five keys, nested Address and City) decodes without errors for any values with a non-empty FirstName, Street and City |
| Scenarios.FullUserOrders | unmarshal_test.go:47-61 | the test's key order (age second) and the declaration order both satisfy the input condition of `FullUserDecodes`, so both decode the same way |
| Scenarios.ShortUserDecodes | unmarshal_test.go:78-92 | a User document with only FirstName, age and FavNumber decodes without errors for any values with a non-empty FirstName |
| Scenarios.AddressDecodes | unmarshal_test.go:53-60 | an Address with all four keys, a non-empty Street and a non-empty City decodes at any path without errors |
| Scenarios.BoxDecodes | unmarshal_test.go:126-167 | any Box with a non-empty name and a non-empty items array decodes without errors, whether or not extra is given |
| Scenarios.StdItemList | unmarshal_test.go:131-137 | the sample leaf decoder turns an array of Item objects into the matching `[]Item` and `[]*Item` values |
| Scenarios.MissingFirstNameDecode | unmarshal.go:88-94 | a User without FirstName gets exactly one Required error, "FirstName" |
| Scenarios.EmptyAddressDecode | unmarshal.go:88-94 | an empty Address object gets a Required error at the nested path "Address.Street" |
| Scenarios.EmptyStreetDecode | unmarshal.go:107-110 | an empty Street string is reported under the bare name "Street", not the full path |
| Scenarios.UnknownKeyDecode | unmarshal.go:113-117 | an undeclared key "Nickname" gets exactly one NotAllowed error |
| Scenarios.AgeAsTextDecode | unmarshal.go:49-51 | a string given for the int64 age gets exactly one InvalidType error: at "age", expected "int64", got "string" |
| Scenarios.WithAddressDecodes | unmarshal.go:96-104 | a User's errors are those of its Address, which is decoded at the path "Address" |

## Left out

- The JSON tokenizer and byte input. The model starts from a parsed
  tree, and `Malformed` marks input the tokenizer rejects. Because the
  standard decoder checks the whole buffer first, any malformed part
  gives one syntax error.
- Reflection. Go types are the closed `Shape` datatype. Every kind the
  engine refuses (bool, the narrow integers, interfaces, and so on) is
  `Other`.
- The standard decoder is a parameter of the engine (`LeafDecoder`). It
  is not modelled as part of the engine. `SampleLeaf.Std` is a simplified
  stand-in used for the concrete cases:
  - no maps;
  - numbers are exact reals;
  - integers are unbounded.
- Integer widths. `Int`, `Uint` and `Float` stand for every width the
  engine accepts. Overflow checks belong to the standard decoder.
- Floating point. Numbers are `real`.
- Engine.ReportNotAllowed: Go's map iteration order is unspecified, so the
  method picks keys in any order. The errors it appends after the earlier
  ones are stated as a multiset, not as a sequence. The functions in `Strict` fix one order: first occurrence.
- Engine.Unmarshal, Engine.UnmarshalValue, Engine.UnmarshalStruct,
  Engine.UnmarshalFields, Engine.NextField and Engine.UnmarshalField state
  their errors as a multiset too, because they contain or follow that scan.
  The order of the field errors, and the fact that they come before the
  NotAllowed errors, is proved only for the functions
  (`Strict.StructUnknownKeys`).
- Panics are excluded rather than modelled:
  - the `reflect.Invalid` branch;
  - a field of pointer-to-pointer type, ruled out by `WellFormed`. This
    rules out more than the panic: the Go code panics only when such a
    field's key is present, and decodes the struct normally when it is
    absent.
- Partial results of a failing leaf decoder. When the standard decoder
  fails for a reason other than a type mismatch, the model keeps the
  destination unchanged. The standard decoder may already have filled part
  of a slice or struct, for example when a custom unmarshaler of a later
  element returns an error.
- Unexported struct fields. The model has no notion of exportedness and
  decodes every field. The Go code panics when the key of an unexported
  field is present: through `dest.Interface()` (`unmarshal.go:49`) for a
  leaf, and through `fv.Set` (`unmarshal.go:99`) for a pointer.
- Self-referential struct types (`type Node struct{ Next *Node }`). A
  `Shape` is a finite tree, so a type that contains itself cannot be
  written. The engine decodes such types on finite input.
- Nil versus empty slices and maps. The model has one value for both
  (`VSlice([])`, `VMap(map[])`). In Go, an absent slice field stays nil,
  `null` sets it to nil, and `[]` gives an empty slice; `reflect.DeepEqual`
  tells these apart.
- The `ignore` flag of `definition`. Its condition is always true, and
  nothing reads it.
- Generic errors carry a cause tag with fixed text, not the library's
  full error values. `%T` labels are fixed strings per kind.
- `Expected` in InvalidType errors is the type's name (`reflect.Type`'s
  `String()`), as a string.

## Notes on the code as written

- A tag name of "-" is not special when names are matched: the field is
  looked up under the key "-". It only makes the field not required.
- `null` in place of a struct decodes like an empty object. Its required
  fields are reported as missing, and no type error is raised.
- A required field that is present but empty is reported under its bare
  name (`unmarshal.go:109`). A missing one is reported under its full
  path (`unmarshal.go:91`). The model keeps this difference; see
  `Scenarios.EmptyStreetDecode` and `Scenarios.EmptyAddressDecode`.
