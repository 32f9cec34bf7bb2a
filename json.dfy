/** The JSON input as the tokenizer hands it over, and the one structural
    parse the engine asks of it: an object read as a string-keyed map of raw
    sub-documents (`map[string]json.RawMessage` in the source). */
module JsonTree {

  /** An already-parsed JSON document. Numbers are opaque exact values;
      `Malformed` marks a fragment the tokenizer rejects. */
  datatype Json =
    | JNull
    | JBool(b: bool)
    | JNum(n: real)
    | JStr(s: string)
    | JArr(items: seq<Json>)
    | JObj(members: seq<Member>)
    | Malformed

  datatype Member = Member(key: string, value: Json)

  /** True when some part of the document is malformed. The decoder checks
      the whole buffer before it decodes anything. */
  predicate Invalid(j: Json)
  {
    match j
    case Malformed => true
    case JArr(items) => exists i :: 0 <= i < |items| && Invalid(items[i])
    case JObj(ms) => exists i :: 0 <= i < |ms| && Invalid(ms[i].value)
    case _ => false
  }

  /** The description the decoder gives of a JSON value it could not store. */
  function KindName(j: Json): string
  {
    match j
    case JNull => "null"
    case JBool(_) => "bool"
    case JNum(_) => "number"
    case JStr(_) => "string"
    case JArr(_) => "array"
    case JObj(_) => "object"
    case Malformed => "malformed"
  }

  datatype ObjectParse =
    | Parsed(members: seq<Member>)
    | NotAnObject(got: string)
    | SyntaxError

  /** Decoding a fragment into `map[string]json.RawMessage`: a syntax error
      for a malformed document, the members of an object, no members at all
      for `null`, and a type mismatch naming the kind of anything else. */
  function ParseObject(j: Json): ObjectParse
  {
    if Invalid(j) then SyntaxError
    else match j
      case JObj(ms) => Parsed(ms)
      case JNull => Parsed([])
      case _ => NotAnObject(KindName(j))
  }

  /** The three outcomes of the map parse, each exactly when it applies. */
  lemma ParseObjectCases(j: Json)
    ensures var p := ParseObject(j);
            (p.SyntaxError? <==> Invalid(j)) &&
            (p.Parsed? <==> !Invalid(j) && (j.JObj? || j.JNull?)) &&
            (p.Parsed? && j.JObj? ==> p.members == j.members) &&
            (p.Parsed? && j.JNull? ==> p.members == []) &&
            (p.NotAnObject? ==> p.got == KindName(j) && p.got != "object" && p.got != "null")
  {
  }

  /** The set of keys that occur in the members. */
  function KeySet(ms: seq<Member>): set<string>
  {
    set i | 0 <= i < |ms| :: ms[i].key
  }

  lemma KeySetSnoc(ms: seq<Member>)
    requires ms != []
    ensures KeySet(ms) == KeySet(ms[..|ms| - 1]) + {ms[|ms| - 1].key}
  {
    var pre := ms[..|ms| - 1];
    forall k | k in KeySet(ms) ensures k in KeySet(pre) + {ms[|ms| - 1].key} {
      var i :| 0 <= i < |ms| && ms[i].key == k;
      if i < |ms| - 1 { assert pre[i] == ms[i]; }
    }
    forall k | k in KeySet(pre) ensures k in KeySet(ms) {
      var i :| 0 <= i < |pre| && pre[i].key == k;
      assert ms[i] == pre[i];
    }
  }

  /** Member `i` is the last one carrying its key. */
  predicate LastWithKey(ms: seq<Member>, i: int)
    requires 0 <= i < |ms|
  {
    forall k :: i < k < |ms| ==> ms[k].key != ms[i].key
  }

  /** The raw map the decoder builds: one entry per distinct key, a later
      duplicate overwriting an earlier one (see RawMapLastWins). */
  function RawMap(ms: seq<Member>): map<string, Json>
  {
    if ms == [] then map[]
    else
      var last := ms[|ms| - 1];
      RawMap(ms[..|ms| - 1])[last.key := last.value]
  }

  /** The raw map has exactly the keys of the members. */
  lemma {:induction false} RawMapKeys(ms: seq<Member>)
    ensures RawMap(ms).Keys == KeySet(ms)
  {
    if ms != [] {
      KeySetSnoc(ms);
      RawMapKeys(ms[..|ms| - 1]);
    }
  }

  /** Each key maps to the value of the last member that carries it. */
  lemma {:induction false} RawMapLastWins(ms: seq<Member>, i: int)
    requires 0 <= i < |ms| && LastWithKey(ms, i)
    ensures ms[i].key in RawMap(ms) && RawMap(ms)[ms[i].key] == ms[i].value
  {
    var pre := ms[..|ms| - 1];
    if i < |pre| {
      assert pre[i] == ms[i] && ms[i].key != ms[|ms| - 1].key;
      forall k | i < k < |pre| ensures pre[k].key != pre[i].key {
        assert pre[k] == ms[k];
      }
      RawMapLastWins(pre, i);
    }
  }

  /** The distinct keys of the members that are not in `declared`, in
      order of first occurrence. */
  function UnknownKeys(ms: seq<Member>, declared: set<string>): seq<string>
  {
    if ms == [] then []
    else
      var pre := UnknownKeys(ms[..|ms| - 1], declared);
      var k := ms[|ms| - 1].key;
      if k in declared || k in pre then pre else pre + [k]
  }

  /** The unknown keys are the undeclared keys of the members, each once. */
  lemma {:induction false} UnknownKeysMembers(ms: seq<Member>, declared: set<string>)
    ensures forall k :: k in UnknownKeys(ms, declared) <==> k in KeySet(ms) && k !in declared
    ensures Distinct(UnknownKeys(ms, declared))
  {
    if ms != [] {
      KeySetSnoc(ms);
      UnknownKeysMembers(ms[..|ms| - 1], declared);
    }
  }

  /** No element occurs twice. */
  predicate Distinct<T(==)>(s: seq<T>)
  {
    forall i, j :: 0 <= i < j < |s| ==> s[i] != s[j]
  }

  /** Appending a new element keeps a list free of repeats. */
  lemma DistinctSnoc<T>(s: seq<T>, x: T)
    requires Distinct(s) && x !in s
    ensures Distinct(s + [x])
  {
  }
}
