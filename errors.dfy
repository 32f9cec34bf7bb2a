/** The error list of errors.go: an ordered list of violations and opaque
    lower-level errors, the four helpers that append to it, and its two
    renderings (the count summary of `Error()` and the listing of
    `String()`). */
module StrictErrors {

  /** Lower-level errors the engine passes through without interpreting them. */
  datatype Cause =
    | InvalidUnmarshal        // the destination is not a pointer to a struct
    | UnsupportedType         // the destination kind is not one the engine decodes
    | Syntax                  // the input is not well-formed JSON
    | Decoder(message: string) // any other failure of the leaf decoder

  datatype Error =
    | Generic(cause: Cause)
    | RequiredError(path: string)
    | NotAllowedError(path: string)
    | InvalidTypeError(path: string, expected: string, got: string)

  type Errors = seq<Error>

  /** `WithErr`: one generic error appended. */
  function WithErr(errs: Errors, c: Cause): (r: Errors)
    ensures |r| == |errs| + 1 && r[..|errs|] == errs
    ensures r[|errs|] == Generic(c)
  {
    errs + [Generic(c)]
  }

  /** `WithNotAllowed`: one NotAllowed violation appended. */
  function WithNotAllowed(errs: Errors, field: string): (r: Errors)
    ensures |r| == |errs| + 1 && r[..|errs|] == errs
    ensures r[|errs|].NotAllowedError? && r[|errs|].path == field
  {
    errs + [NotAllowedError(field)]
  }

  /** `WithRequired`: one Required violation appended. */
  function WithRequired(errs: Errors, field: string): (r: Errors)
    ensures |r| == |errs| + 1 && r[..|errs|] == errs
    ensures r[|errs|].RequiredError? && r[|errs|].path == field
  {
    errs + [RequiredError(field)]
  }

  /** `WithInvalidType`: one InvalidType violation appended, carrying the
      decoder's description of what it got and of the type it expected. */
  function WithInvalidType(errs: Errors, field: string, got: string, expected: string): (r: Errors)
    ensures |r| == |errs| + 1 && r[..|errs|] == errs
    ensures r[|errs|].InvalidTypeError?
    ensures r[|errs|].path == field && r[|errs|].got == got && r[|errs|].expected == expected
  {
    errs + [InvalidTypeError(field, expected, got)]
  }

  /** The text `Error()` gives for one element. */
  function Message(e: Error): (m: string)
    ensures e.RequiredError? ==> m == "field is required: " + e.path
    ensures e.NotAllowedError? ==> m == "field is not allowed: " + e.path
    ensures e.InvalidTypeError? ==>
      m == "invalid type: " + e.path + ": expected " + e.expected + ", got " + e.got
  {
    match e
    case Generic(c) => CauseMessage(c)
    case RequiredError(p) => "field is required: " + p
    case NotAllowedError(p) => "field is not allowed: " + p
    case InvalidTypeError(p, expected, got) =>
      "invalid type: " + p + ": expected " + expected + ", got " + got
  }

  /** Required and NotAllowed messages name their violation and its path:
      two such errors with the same message are the same error. */
  lemma PathMessagesDistinct(e1: Error, e2: Error)
    requires e1.RequiredError? || e1.NotAllowedError?
    requires e2.RequiredError? || e2.NotAllowedError?
    requires Message(e1) == Message(e2)
    ensures e1 == e2
  {
    var m := Message(e1);
    KindLetter(e1);
    KindLetter(e2);
    if e1.RequiredError? {
      assert m[|"field is required: "|..] == e1.path == e2.path;
    } else {
      assert m[|"field is not allowed: "|..] == e1.path == e2.path;
    }
  }

  /** The letter after "field is " tells the two path messages apart. */
  lemma KindLetter(e: Error)
    requires e.RequiredError? || e.NotAllowedError?
    ensures |Message(e)| > 9 && Message(e)[9] == if e.RequiredError? then 'r' else 'n'
  {
  }

  /** An InvalidType message is never a Required or NotAllowed message. */
  lemma InvalidTypeMessageDistinct(e1: Error, e2: Error)
    requires e1.InvalidTypeError? && (e2.RequiredError? || e2.NotAllowedError?)
    ensures Message(e1) != Message(e2)
  {
    assert Message(e1)[0] == 'i' && Message(e2)[0] == 'f';
  }

  function CauseMessage(c: Cause): string
  {
    match c
    case InvalidUnmarshal => "json: Unmarshal(invalid destination)"
    case UnsupportedType => "json: unsupported type"
    case Syntax => "json: invalid JSON input"
    case Decoder(m) => m
  }

  /** The dynamic type name `%T` prints for an element. */
  function TypeLabel(e: Error): string
  {
    match e
    case Generic(InvalidUnmarshal) => "*json.InvalidUnmarshalError"
    case Generic(UnsupportedType) => "*json.UnsupportedTypeError"
    case Generic(Syntax) => "*json.SyntaxError"
    case Generic(Decoder(_)) => "*errors.errorString"
    case RequiredError(_) => "*strictjson.RequiredError"
    case NotAllowedError(_) => "*strictjson.NotAllowedError"
    case InvalidTypeError(_, _, _) => "*strictjson.InvalidTypeError"
  }

  /** Decimal digits of `n`, as `%d` writes them. */
  function NatToString(n: nat): (s: string)
    ensures |s| >= 1 && forall i :: 0 <= i < |s| ==> '0' <= s[i] <= '9'
    ensures s[0] == '0' ==> n == 0
  {
    if n < 10 then [Digit(n)] else NatToString(n / 10) + [Digit(n % 10)]
  }

  function Digit(d: nat): (c: char)
    requires d < 10
    ensures '0' <= c <= '9'
  {
    "0123456789"[d]
  }

  /** Reads decimal digits back: the inverse of NatToString. */
  function ParseNat(s: string): nat
    requires forall i :: 0 <= i < |s| ==> '0' <= s[i] <= '9'
  {
    if s == [] then 0 else 10 * ParseNat(s[..|s| - 1]) + (s[|s| - 1] as int - '0' as int)
  }

  lemma {:induction false} ParseNatToString(n: nat)
    ensures ParseNat(NatToString(n)) == n
  {
    var s := NatToString(n);
    if n < 10 {
      DigitValue(n);
      assert s[..|s| - 1] == [];
    } else {
      var p := NatToString(n / 10);
      assert s == p + [Digit(n % 10)];
      assert s[..|s| - 1] == p;
      ParseNatToString(n / 10);
      DigitValue(n % 10);
    }
  }

  /** A digit character stands for its own value. */
  lemma DigitValue(d: nat)
    requires d < 10
    ensures Digit(d) as int - '0' as int == d
  {
  }

  /** `Error()`: the count of elements in words. */
  function Summary(errs: Errors): (s: string)
    ensures |errs| == 0 ==> s == "no errors"
    ensures |errs| == 1 ==> s == "1 error"
    ensures |errs| >= 2 ==> s == NatToString(|errs|) + " errors"
  {
    match |errs|
    case 0 => "no errors"
    case 1 => "1 error"
    case n => NatToString(n) + " errors"
  }

  /** Reads the count back from a summary. */
  function ReadCount(s: string): nat
  {
    if s == "no errors" then 0
    else if s == "1 error" then 1
    else if |s| >= 7 && s[|s| - 7..] == " errors" && forall i :: 0 <= i < |s| - 7 ==> '0' <= s[i] <= '9'
    then ParseNat(s[..|s| - 7])
    else 0
  }

  /** The summary determines the number of errors. */
  lemma SummaryCountRoundTrip(errs: Errors)
    ensures ReadCount(Summary(errs)) == |errs|
  {
    if |errs| >= 2 {
      var d := NatToString(|errs|);
      var s := Summary(errs);
      assert s == d + " errors";
      assert s[0] == d[0] && "no errors"[0] == 'n';
      assert |s| > |"1 error"|;
      assert s[..|s| - 7] == d;
      assert s[|s| - 7..] == " errors";
      ParseNatToString(|errs|);
    }
  }

  /** The header of the listing. */
  function Header(n: nat): string
  {
    match n
    case 0 => "no errors"
    case 1 => "1 error:\n"
    case _ => NatToString(n) + " errors:\n"
  }

  /** The listing line of one element: its type name and message. */
  function Line(e: Error): string
  {
    " " + TypeLabel(e) + ": " + Message(e) + "\n"
  }

  /** The lines of all elements, in list order. */
  function Lines(errs: Errors): string
  {
    if errs == [] then "" else Line(errs[0]) + Lines(errs[1..])
  }

  /** `String()`: the header followed by one line per element. */
  function Listing(errs: Errors): string
  {
    Header(|errs|) + Lines(errs)
  }

  lemma ListingEmpty()
    ensures Listing([]) == "no errors"
  {
  }

  /** A non-empty listing starts with the summary followed by a colon. */
  lemma ListingExtendsSummary(errs: Errors)
    requires errs != []
    ensures Listing(errs) == Summary(errs) + ":\n" + Lines(errs)
  {
  }

  /** The lines of a concatenation are the concatenation of the lines. */
  lemma {:induction false} LinesAppend(a: Errors, b: Errors)
    ensures Lines(a + b) == Lines(a) + Lines(b)
  {
    if a == [] {
      assert a + b == b;
    } else {
      assert (a + b)[0] == a[0] && (a + b)[1..] == a[1..] + b;
      LinesAppend(a[1..], b);
    }
  }

  lemma LinesSnoc(s: Errors, e: Error)
    ensures Lines(s + [e]) == Lines(s) + Line(e)
  {
    LinesAppend(s, [e]);
    assert [e][1..] == [];
  }

  /** The listing of a list holds, in order, one line for each element. */
  lemma {:induction false} LinesInOrder(errs: Errors, i: int)
    requires 0 <= i < |errs|
    ensures Lines(errs) == Lines(errs[..i]) + Line(errs[i]) + Lines(errs[i + 1..])
  {
    assert errs == errs[..i] + [errs[i]] + errs[i + 1..];
    LinesAppend(errs[..i] + [errs[i]], errs[i + 1..]);
    LinesAppend(errs[..i], [errs[i]]);
    assert Lines([errs[i]]) == Line(errs[i]) by {
      assert [errs[i]][..0] == [];
    }
  }

  lemma WriteLineStep(b: string, errs: Errors, i: int)
    requires 0 <= i < |errs|
    ensures (b + Line(errs[i])) + Lines(errs[i + 1..]) == b + Lines(errs[i..])
  {
    assert errs[i..][1..] == errs[i + 1..];
    var line := Line(errs[i]);
    assert Lines(errs[i..]) == line + Lines(errs[i + 1..]);
  }

  /** `String()` as the source computes it: the header written into a buffer,
      then one line per element. */
  method Render(errs: Errors) returns (b: string)
    ensures b == Listing(errs)
  {
    match |errs| {
      case 0 => b := "no errors";
      case 1 => b := "1 error:\n";
      case n => b := NatToString(n) + " errors:\n";
    }
    assert b == Header(|errs|);
    var i := 0;
    assert errs[0..] == errs;
    while i < |errs|
      invariant 0 <= i <= |errs|
      invariant b + Lines(errs[i..]) == Header(|errs|) + Lines(errs)
    {
      WriteLineStep(b, errs, i);
      b := b + Line(errs[i]);
      i := i + 1;
    }
  }
}
