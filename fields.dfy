/** The field policy of unmarshal.go: the wire name a field is matched
    under, whether it is required, the dotted error path, and what counts as
    an empty value. */
module Fields {
  import opened Shapes

  /** Position of the first `c` in `s`, or `|s|` when there is none. */
  function IndexOf(s: string, c: char): (i: nat)
    ensures i <= |s|
  {
    if s == [] then 0
    else if s[0] == c then 0
    else IndexOf(s[1..], c) + 1
  }

  /** IndexOf finds the first occurrence. */
  lemma {:induction false} IndexOfFirstOccurrence(s: string, c: char)
    ensures c !in s[..IndexOf(s, c)]
    ensures IndexOf(s, c) < |s| ==> s[IndexOf(s, c)] == c
  {
    if s != [] && s[0] != c {
      var k := IndexOf(s[1..], c);
      IndexOfFirstOccurrence(s[1..], c);
      assert s[..k + 1] == [s[0]] + s[1..][..k];
    }
  }

  /** The text before the first `c`. */
  function Head(s: string, c: char): string
  {
    s[..IndexOf(s, c)]
  }

  /** The head is the longest prefix without `c`. */
  lemma HeadSpec(s: string, c: char)
    ensures c !in Head(s, c) && Head(s, c) <= s
    ensures |Head(s, c)| == |s| || s[|Head(s, c)|] == c
  {
    IndexOfFirstOccurrence(s, c);
  }

  /** `strings.Split(s, sep)` for a one-character separator. */
  function Split(s: string, c: char): (parts: seq<string>)
    ensures |parts| >= 1
    decreases |s|
  {
    var i := IndexOf(s, c);
    if i == |s| then [s] else [s[..i]] + Split(s[i + 1..], c)
  }

  /** `strings.Join(parts, sep)`. */
  function Join(parts: seq<string>, c: char): string
    requires |parts| >= 1
  {
    if |parts| == 1 then parts[0] else parts[0] + [c] + Join(parts[1..], c)
  }

  /** The parts of a split come before, between and after the separators:
      the first is the head, none holds the separator, and joining them
      gives the text back. */
  lemma {:induction false} SplitSpec(s: string, c: char)
    ensures Split(s, c)[0] == Head(s, c)
    ensures forall k :: 0 <= k < |Split(s, c)| ==> c !in Split(s, c)[k]
    ensures Join(Split(s, c), c) == s
    decreases |s|
  {
    var i := IndexOf(s, c);
    IndexOfFirstOccurrence(s, c);
    if i == |s| {
      assert s[..i] == s;
    } else {
      var rest := Split(s[i + 1..], c);
      SplitSpec(s[i + 1..], c);
      assert Split(s, c) == [s[..i]] + rest;
      assert s == s[..i] + [c] + s[i + 1..];
    }
  }

  /** Splitting undoes joining parts that do not contain the separator. */
  lemma {:induction false} SplitJoin(parts: seq<string>, c: char)
    requires |parts| >= 1 && forall k :: 0 <= k < |parts| ==> c !in parts[k]
    ensures Split(Join(parts, c), c) == parts
  {
    var s := Join(parts, c);
    var p := parts[0];
    if |parts| == 1 {
      IndexOfAbsent(p, c);
    } else {
      var rest := Join(parts[1..], c);
      assert s == p + [c] + rest;
      IndexOfFirst(p, c, rest);
      assert s[|p| + 1..] == rest && s[..|p|] == p;
      SplitJoin(parts[1..], c);
      assert parts == [p] + parts[1..];
    }
  }

  lemma {:induction false} IndexOfAbsent(s: string, c: char)
    requires c !in s
    ensures IndexOf(s, c) == |s|
  {
    if s != [] {
      assert c !in s[1..];
      IndexOfAbsent(s[1..], c);
    }
  }

  lemma {:induction false} IndexOfFirst(p: string, c: char, rest: string)
    requires c !in p
    ensures IndexOf(p + [c] + rest, c) == |p|
  {
    if p != [] {
      assert (p + [c] + rest)[1..] == p[1..] + [c] + rest;
      IndexOfFirst(p[1..], c, rest);
    }
  }

  /** `strings.SplitN(s, sep, 2)`: the text before the first separator and,
      when there is one, everything after it. */
  function SplitN2(s: string, c: char): (parts: seq<string>)
    ensures 1 <= |parts| <= 2
  {
    var i := IndexOf(s, c);
    if i == |s| then [s] else [s[..i], s[i + 1..]]
  }

  /** At most two parts: the head, and the rest when the separator occurs;
      joining them gives the text back. */
  lemma SplitN2Spec(s: string, c: char)
    ensures SplitN2(s, c)[0] == Head(s, c)
    ensures |SplitN2(s, c)| == 2 <==> c in s
    ensures Join(SplitN2(s, c), c) == s
  {
    var i := IndexOf(s, c);
    IndexOfFirstOccurrence(s, c);
    if i == |s| {
      assert s[..i] == s;
    } else {
      assert s == s[..i] + [c] + s[i + 1..];
    }
  }

  /** `jsonName`: the tag text before the first comma, or the Go identifier
      when that text is empty. */
  function JsonName(f: Field): string
  {
    if f.tag != "" then
      var name := SplitN2(f.tag, ',')[0];
      if name == "" then f.ident else name
    else f.ident
  }

  /** The wire name is the head of the tag, or the identifier when that
      head is empty (which includes a field without a tag). */
  lemma JsonNameSpec(f: Field)
    ensures Head(f.tag, ',') != "" ==> JsonName(f) == Head(f.tag, ',')
    ensures Head(f.tag, ',') == "" ==> JsonName(f) == f.ident
  {
    SplitN2Spec(f.tag, ',');
  }

  /** `fieldPath`: the root path and the name joined by a dot, or the bare
      name at the root. */
  function FieldPath(root: string, name: string): string
  {
    if root != "" then root + "." + name else name
  }

  /** The path is the name at the root, and otherwise the root, a dot and
      the name; it always ends with the name. */
  lemma FieldPathShape(root: string, name: string)
    ensures var p := FieldPath(root, name);
            (root == "" ==> p == name) &&
            (root != "" ==> |p| == |root| + 1 + |name| && p[..|root|] == root && p[|root|] == '.') &&
            p[|p| - |name|..] == name
  {
  }

  /** Different names under one root give different paths. */
  lemma FieldPathInjective(root: string, a: string, b: string)
    requires FieldPath(root, a) == FieldPath(root, b)
    ensures a == b
  {
    FieldPathShape(root, a);
    FieldPathShape(root, b);
    var pa := FieldPath(root, a);
    assert |a| == |b|;
    assert a == pa[|pa| - |a|..];
  }

  /** The options after the name in a tag. */
  function Options(tag: string): seq<string>
  {
    Split(tag, ',')[1..]
  }

  /** Whether a field must be present and non-empty in the input. */
  predicate RequiredPolicy(f: Field)
  {
    !f.shape.Ptr? &&
    Head(f.tag, ',') != "-" &&
    "omitempty" !in Options(f.tag) &&
    (f.shape.Slice? ==> !f.shape.elem.Ptr?)
  }

  /** `isRequired`, with the tag already split on commas: pointers, the
      name "-" and an `omitempty` option make a field optional; a slice is
      required exactly when its elements are not pointers. */
  method IsRequired(f: Field, tags: seq<string>) returns (r: bool)
    requires |tags| >= 1
    ensures r <==> !f.shape.Ptr? && tags[0] != "-" && "omitempty" !in tags[1..] &&
                   (f.shape.Slice? ==> !f.shape.elem.Ptr?)
  {
    if f.shape.Ptr? {
      return false;
    }
    if tags[0] == "-" {
      return false;
    }
    if |tags| >= 2 {
      var i := 1;
      while i < |tags|
        invariant 1 <= i <= |tags|
        invariant "omitempty" !in tags[1..i]
      {
        if tags[i] == "omitempty" {
          assert tags[1..][i - 1] == tags[i];
          return false;
        }
        assert tags[1..i + 1] == tags[1..i] + [tags[i]];
        i := i + 1;
      }
      assert tags[1..i] == tags[1..];
    }
    if f.shape.Slice? {
      return !f.shape.elem.Ptr?;
    }
    return true;
  }

  /** The policy `definition` derives once per field. The source's `ignore`
      flag is always set and never read, so it is not kept. */
  datatype FieldDefinition = FieldDefinition(required: bool, name: string)

  /** `definition`: split the tag, then derive required-ness and name. */
  method Definition(f: Field) returns (def: FieldDefinition)
    ensures def.name == JsonName(f)
    ensures def.required <==> RequiredPolicy(f)
  {
    var tags := Split(f.tag, ',');
    SplitSpec(f.tag, ',');
    var required := IsRequired(f, tags);
    def := FieldDefinition(required, JsonName(f));
  }

  /** A tag written as comma-separated parts: the first part names the
      field (the identifier when it is empty), and the policy reads the
      name and the options off the parts. */
  lemma TagParts(f: Field, parts: seq<string>)
    requires |parts| >= 1 && forall k :: 0 <= k < |parts| ==> ',' !in parts[k]
    requires f.tag == Join(parts, ',')
    ensures JsonName(f) == if parts[0] == "" then f.ident else parts[0]
    ensures RequiredPolicy(f) <==> !f.shape.Ptr? && parts[0] != "-" && "omitempty" !in parts[1..] &&
                                   (f.shape.Slice? ==> !f.shape.elem.Ptr?)
  {
    SplitJoin(parts, ',');
    SplitSpec(f.tag, ',');
    JsonNameSpec(f);
  }

  /** `IsEmpty`: a nil pointer, or, after one dereference, a string, slice
      or map of length zero. */
  predicate IsEmpty(v: Value)
  {
    if v.VNil? then true
    else
      var w := if v.VPtr? then v.target else v;
      match w
      case VStr(s) => |s| == 0
      case VSlice(e) => |e| == 0
      case VMap(m) => |m| == 0
      case _ => false
  }

  /** Numbers, records and the other kinds are never empty; a pointer is
      empty when nil or when what it points to is an empty string, slice or map. */
  lemma IsEmptyByKind(v: Value)
    ensures (v.VInt? || v.VUint? || v.VFloat? || v.VRecord? || v.VOther?) ==> !IsEmpty(v)
    ensures v.VStr? ==> (IsEmpty(v) <==> v.s == "")
    ensures v.VSlice? ==> (IsEmpty(v) <==> v.elems == [])
    ensures v.VMap? ==> (IsEmpty(v) <==> v.entries == map[])
    ensures v.VPtr? ==> (IsEmpty(v) <==> !v.target.VPtr? && !v.target.VNil? && IsEmpty(v.target))
    ensures v.VNil? ==> IsEmpty(v)
  {
    if v.VMap? && |v.entries| == 0 {
      assert v.entries == map[];
    }
    if v.VPtr? && v.target.VMap? && |v.target.entries| == 0 {
      assert v.target.entries == map[];
    }
  }

  /** The zero value is empty exactly for pointers, strings, slices and maps. */
  lemma ZeroEmpty(s: Shape)
    ensures IsEmpty(Zero(s)) <==> s.Ptr? || s.Str? || s.Slice? || s.Map?
  {
  }

  /** A required field is never a pointer, so its emptiness is the length
      of a string, slice or map and nothing else. */
  lemma RequiredEmptiness(f: Field, v: Value)
    requires RequiredPolicy(f) && Conforms(v, f.shape)
    ensures IsEmpty(v) <==> (v.VStr? && v.s == "") || (v.VSlice? && v.elems == []) ||
                            (v.VMap? && v.entries == map[])
  {
    IsEmptyByKind(v);
  }

  /** The ways a field becomes optional. */
  lemma RequiredCases(f: Field)
    ensures f.shape.Ptr? ==> !RequiredPolicy(f)
    ensures Head(f.tag, ',') == "-" ==> !RequiredPolicy(f)
    ensures "omitempty" in Options(f.tag) ==> !RequiredPolicy(f)
    ensures f.shape.Slice? && Head(f.tag, ',') != "-" && "omitempty" !in Options(f.tag) ==>
              (RequiredPolicy(f) <==> !f.shape.elem.Ptr?)
    ensures (!f.shape.Ptr? && !f.shape.Slice? && Head(f.tag, ',') != "-" &&
             "omitempty" !in Options(f.tag)) ==> RequiredPolicy(f)
  {
  }
}
