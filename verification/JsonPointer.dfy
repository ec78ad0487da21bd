/**
  The JSON Pointer resolver (internal/cli/outcome_json.go) next to RFC 6901: how a
  pointer is written for a location, how the RFC reads it back, and what this code does
  with any pointer at all.
*/
module JsonPointer {
  import opened Basics
  import opened Text
  import opened Json
  import opened Numbers

  // ----- the resolver ------------------------------------------------------

  datatype PointerError = NoLeadingSlash | NotFound(part: string) | NotAnIndex(part: string) | Scalar(part: string)

  /** The code's unescape: two whole-string replacements, `~1` first. */
  function Unescape(raw: string): string {
    ReplaceAll(ReplaceAll(raw, "~1", "/"), "~0", "~")
  }

  /** One turn of the loop: descend by one unescaped component. */
  function Step(current: Json, part: string): Result<Json, PointerError> {
    match current
    case Obj(fields) => if part in fields then Ok(fields[part]) else Err(NotFound(part))
    case Arr(items) =>
      var index := Atoi(part);
      if index.None? || index.value < 0 || index.value >= |items| then Err(NotAnIndex(part)) else Ok(items[index.value])
    case _ => Err(Scalar(part))
  }

  function Walk(current: Json, tokens: seq<string>): Result<Json, PointerError>
    decreases tokens
  {
    if tokens == [] then Ok(current)
    else
      var next := Step(current, Unescape(tokens[0]));
      if next.Err? then next else Walk(next.value, tokens[1..])
  }

  function Resolve(value: Json, pointer: string): Result<Json, PointerError> {
    if pointer == "" then Ok(value)
    else if pointer[0] != '/' then Err(NoLeadingSlash)
    else Walk(value, Split(pointer[1..], '/'))
  }

  method ResolveJSONPointer(value: Json, pointer: string) returns (r: Result<Json, PointerError>)
    ensures r == Resolve(value, pointer)
  {
    if pointer == "" {
      return Ok(value);
    }
    if pointer[0] != '/' {
      return Err(NoLeadingSlash);
    }
    var tokens := Split(pointer[1..], '/');
    var current := value;
    assert tokens[0..] == tokens;
    for i := 0 to |tokens|
      invariant Walk(current, tokens[i..]) == Walk(value, tokens)
    {
      assert tokens[i..][0] == tokens[i] && tokens[i..][1..] == tokens[i + 1..];
      var part := Unescape(tokens[i]);
      match current {
        case Obj(fields) =>
          if part !in fields {
            return Err(NotFound(part));
          }
          current := fields[part];
        case Arr(items) =>
          var index := Atoi(part);
          if index.None? || index.value < 0 || index.value >= |items| {
            return Err(NotAnIndex(part));
          }
          current := items[index.value];
        case _ =>
          return Err(Scalar(part));
      }
    }
    assert tokens[|tokens|..] == [];
    return Ok(current);
  }

  // ----- where a pointer fails ---------------------------------------------

  /** A node that has nothing under a component: why, and which component. */
  predicate FailsAt(node: Json, part: string, error: PointerError) {
    if node.Obj? then part !in node.fields && error == NotFound(part)
    else if node.Arr? then
      (Atoi(part).None? || Atoi(part).value < 0 || Atoi(part).value >= |node.items|) && error == NotAnIndex(part)
    else error == Scalar(part)
  }

  /** The first `k` components lead to a node that fails at the next. */
  predicate FailsAfter(value: Json, tokens: seq<string>, k: nat, error: PointerError)
    requires k < |tokens|
  {
    var node := Walk(value, tokens[..k]);
    node.Ok? && FailsAt(node.value, Unescape(tokens[k]), error)
  }

  /**
    A pointer fails for want of its leading slash, or at the first component that the node reached so
    far has nothing under, which the error names.
  */
  lemma FailsExactly(value: Json, pointer: string)
    ensures Resolve(value, pointer) == Err(NoLeadingSlash) <==> pointer != "" && pointer[0] != '/'
    ensures pointer == "" ==> Resolve(value, pointer) == Ok(value)
    ensures pointer != "" && pointer[0] == '/' && Resolve(value, pointer).Err? ==>
              var tokens := ReferenceTokens(pointer);
              exists k | 0 <= k < |tokens| :: FailsAfter(value, tokens, k, Resolve(value, pointer).error)
  {
    if pointer != "" && pointer[0] == '/' {
      var tokens := ReferenceTokens(pointer);
      WalkFailsSomewhere(value, tokens);
      assert Resolve(value, pointer) == Walk(value, tokens);
      if Walk(value, tokens).Err? {
        var k :| 0 <= k < |tokens| && FailsAfter(value, tokens, k, Walk(value, tokens).error);
        assert FailsAfter(value, tokens, k, Resolve(value, pointer).error);
      }
    }
  }

  lemma WalkFailsSomewhere(value: Json, tokens: seq<string>)
    ensures Walk(value, tokens) != Err(NoLeadingSlash)
    ensures Walk(value, tokens).Err? ==> exists k | 0 <= k < |tokens| :: FailsAfter(value, tokens, k, Walk(value, tokens).error)
  {
    WalkNamesAComponent(value, tokens);
    if Walk(value, tokens).Err? {
      var k := WalkFails(value, tokens);
    }
  }

  lemma {:induction false} WalkNamesAComponent(current: Json, tokens: seq<string>)
    ensures Walk(current, tokens) != Err(NoLeadingSlash)
    decreases tokens
  {
    hide Unescape, Atoi;
    if tokens != [] && Step(current, Unescape(tokens[0])).Ok? {
      WalkNamesAComponent(Step(current, Unescape(tokens[0])).value, tokens[1..]);
    }
  }

  lemma {:induction false} WalkFails(current: Json, tokens: seq<string>) returns (k: nat)
    requires Walk(current, tokens).Err?
    ensures k < |tokens| && FailsAfter(current, tokens, k, Walk(current, tokens).error)
    decreases tokens
  {
    hide Unescape, Atoi;
    var next := Step(current, Unescape(tokens[0]));
    if next.Err? {
      k := 0;
      assert tokens[..0] == [];
    } else {
      var j := WalkFails(next.value, tokens[1..]);
      k := j + 1;
      assert tokens[..k][0] == tokens[0] && tokens[..k][1..] == tokens[1..][..j];
    }
  }

  // ----- the scalar at the end ---------------------------------------------

  /** `jsonScalarString`: the text a scalar is compared by; none for an object or a list. */
  function ScalarString(value: Json): Option<string> {
    match value
    case Str(s) => Some(s)
    case Number(text) => Some(text)
    case Bool(b) => Some(if b then "true" else "false")
    case Null => Some("null")
    case _ => None
  }

  /** What meets an expected text: the string, the number so written, and for three texts the literal as well. */
  lemma ScalarsMeetingAText(value: Json, expected: string)
    ensures ScalarString(value) == Some(expected)
            <==> value == Str(expected) || value == Number(expected) || (value == Bool(true) && expected == "true")
                 || (value == Bool(false) && expected == "false") || (value == Null && expected == "null")
    ensures ScalarString(value).None? <==> value.Obj? || value.Arr?
  {
  }

  // ----- section 4 of RFC 6901: escaping -----------------------------------

  /** `~` is written `~0` and `/` is written `~1`. */
  function Escape(key: string): string {
    if key == "" then ""
    else (if key[0] == '~' then "~0" else if key[0] == '/' then "~1" else [key[0]]) + Escape(key[1..])
  }

  /** A single left-to-right reader of the two escapes; a stray `~` stands for itself. */
  function Decode(s: string): string {
    if s == "" then ""
    else if |s| >= 2 && s[0] == '~' && s[1] == '1' then "/" + Decode(s[2..])
    else if |s| >= 2 && s[0] == '~' && s[1] == '0' then "~" + Decode(s[2..])
    else [s[0]] + Decode(s[1..])
  }

  /** Every `~` is followed by `0` or `1`: the grammar of a reference token. */
  predicate ValidToken(s: string) {
    s == "" ||
    (if s[0] == '~' then |s| >= 2 && (s[1] == '0' || s[1] == '1') && ValidToken(s[2..])
     else s[0] != '/' && ValidToken(s[1..]))
  }

  lemma {:induction false} ReplaceSkips(c: char, s: string, from: string, to: string)
    requires from != "" && from[0] != c
    ensures ReplaceAll([c] + s, from, to) == [c] + ReplaceAll(s, from, to)
  {
    var whole := [c] + s;
    assert whole[1..] == s;
    if |whole| < |from| {
      assert ReplaceAll(s, from, to) == s;
    } else {
      assert whole[..|from|][0] == c;
    }
  }

  /** Replacing `~1` first cannot create or destroy a `~0`: the two passes are one pass, on any string. */
  lemma {:induction false} TwoPassesAreOne(s: string)
    ensures Unescape(s) == Decode(s)
    decreases |s|
  {
    if s == "" {
    } else if |s| >= 2 && s[0] == '~' && s[1] == '1' {
      assert s[..2] == "~1";
      TwoPassesAreOne(s[2..]);
      ReplaceSkips('/', ReplaceAll(s[2..], "~1", "/"), "~0", "~");
    } else if |s| >= 2 && s[0] == '~' && s[1] == '0' {
      TwoPassesAreOne(s[2..]);
      var rest := ReplaceAll(s[2..], "~1", "/");
      assert s[..2] != "~1" by { assert s[..2][1] == '0'; }
      assert s[1..] == ['0'] + s[2..];
      ReplaceSkips('0', s[2..], "~1", "/");
      assert ReplaceAll(s, "~1", "/") == ['~'] + (['0'] + rest);
      var once := ['~'] + (['0'] + rest);
      assert once[..2] == "~0" && once[2..] == rest;
    } else {
      TwoPassesAreOne(s[1..]);
      var rest := ReplaceAll(s[1..], "~1", "/");
      assert |s| >= 2 ==> s[..2] != "~1" by { if |s| >= 2 { assert s[..2][0] == s[0] && s[..2][1] == s[1]; } }
      assert ReplaceAll(s, "~1", "/") == [s[0]] + rest;
      FirstAfterReplace(s[1..]);
      var once := [s[0]] + rest;
      assert once[1..] == rest;
      assert |once| >= 2 ==> once[..2] != "~0" by { if |once| >= 2 { assert once[..2][0] == s[0] && once[..2][1] == rest[0]; } }
    }
  }

  /** After the first pass a leading `0` was there before it. */
  lemma FirstAfterReplace(s: string)
    ensures var r := ReplaceAll(s, "~1", "/"); r != "" && r[0] == '0' ==> s[0] == '0'
    ensures s == "" ==> ReplaceAll(s, "~1", "/") == ""
  {
  }

  lemma {:induction false} DecodeOfEscape(key: string)
    ensures Decode(Escape(key)) == key && '/' !in Escape(key) && ValidToken(Escape(key))
  {
    if key != "" {
      DecodeOfEscape(key[1..]);
      var e := Escape(key);
      if key[0] == '~' || key[0] == '/' {
        assert e[2..] == Escape(key[1..]);
      } else {
        assert e[1..] == Escape(key[1..]);
      }
      assert [key[0]] + key[1..] == key;
    }
  }

  // ----- sections 3 and 5 of RFC 6901: pointers and their evaluation -------

  /** A location in a document: object keys and array indices from the root. */
  datatype Segment = Key(key: string) | Index(i: nat)

  function Decimal(n: nat): string {
    if n < 10 then ['0' + n as char] else Decimal(n / 10) + ['0' + (n % 10) as char]
  }

  function TokenOf(seg: Segment): string {
    match seg
    case Key(key) => Escape(key)
    case Index(i) => Decimal(i)
  }

  /** The pointer for a location: each token behind a slash. */
  function PointerTo(path: seq<Segment>): string {
    if path == [] then "" else "/" + TokenOf(path[0]) + PointerTo(path[1..])
  }

  function Tokens(path: seq<Segment>): seq<string> {
    if path == [] then [] else [TokenOf(path[0])] + Tokens(path[1..])
  }

  /** The node at a location, when the document has one there. */
  function NodeAt(doc: Json, path: seq<Segment>): Option<Json>
    decreases path
  {
    if path == [] then Some(doc)
    else match path[0]
      case Key(key) => if doc.Obj? && key in doc.fields then NodeAt(doc.fields[key], path[1..]) else None
      case Index(i) => if doc.Arr? && i < |doc.items| then NodeAt(doc.items[i], path[1..]) else None
  }

  lemma {:induction false} DecimalReadsBack(n: nat)
    ensures AllDigits(Decimal(n)) && DigitsValue(Decimal(n)) == n
    ensures CanonicalIndex(Decimal(n))
  {
    if n < 10 {
      assert Decimal(n)[..0] == "";
      assert DigitsValue("") == 0;
    } else {
      DecimalReadsBack(n / 10);
      var d := Decimal(n);
      assert d[..|d| - 1] == Decimal(n / 10);
      assert d[0] == Decimal(n / 10)[0];
      if n / 10 < 10 {
        assert d[0] == '0' + (n / 10) as char;
      }
    }
  }

  /** Section 4's array-index grammar: `0`, or digits with no leading zero. */
  predicate CanonicalIndex(s: string) { AllDigits(s) && (s[0] == '0' ==> |s| == 1) }

  lemma {:induction false} DigitsUntouched(s: string)
    requires forall i | 0 <= i < |s| :: IsDigit(s[i])
    ensures Decode(s) == s && '/' !in s && ValidToken(s)
  {
    if s != "" {
      DigitsUntouched(s[1..]);
    }
  }

  lemma TokenReadsBack(seg: Segment)
    ensures Unescape(TokenOf(seg)) == (if seg.Key? then seg.key else Decimal(seg.i)) && '/' !in TokenOf(seg) && ValidToken(TokenOf(seg))
  {
    TwoPassesAreOne(TokenOf(seg));
    match seg {
      case Key(key) => DecodeOfEscape(key);
      case Index(i) =>
        DecimalReadsBack(i);
        DigitsUntouched(Decimal(i));
    }
  }

  lemma {:induction false} PointerIsPrefixed(path: seq<Segment>)
    ensures PointerTo(path) == Prefixed(Tokens(path), '/')
    ensures |Tokens(path)| == |path| && forall i | 0 <= i < |path| :: Tokens(path)[i] == TokenOf(path[i])
  {
    hide TokenOf;
    if path != [] {
      PointerIsPrefixed(path[1..]);
      assert Tokens(path)[1..] == Tokens(path[1..]);
      assert "/" + TokenOf(path[0]) + PointerTo(path[1..]) == ['/'] + TokenOf(path[0]) + Prefixed(Tokens(path[1..]), '/');
    }
  }

  lemma PointerSplits(path: seq<Segment>)
    ensures path != [] ==> PointerTo(path)[0] == '/' && Split(PointerTo(path)[1..], '/') == Tokens(path)
    ensures |Tokens(path)| == |path| && forall i | 0 <= i < |path| :: Tokens(path)[i] == TokenOf(path[i])
  {
    hide TokenOf, Tokens, PointerTo, Split;
    PointerIsPrefixed(path);
    var tokens := Tokens(path);
    if path != [] {
      JoinIsPrefixed(tokens[0], tokens[1..], '/');
      assert [tokens[0]] + tokens[1..] == tokens;
      assert Prefixed(tokens, '/') == ['/'] + Join(tokens, '/');
      assert (['/'] + Join(tokens, '/'))[1..] == Join(tokens, '/');
      forall i | 0 <= i < |tokens|
        ensures '/' !in tokens[i]
      {
        TokenReadsBack(path[i]);
      }
      SplitOfJoin(tokens, '/');
    }
  }

  lemma {:induction false} WalkReaches(doc: Json, path: seq<Segment>)
    requires NodeAt(doc, path).Some?
    ensures Walk(doc, Tokens(path)) == Ok(NodeAt(doc, path).value)
    decreases path
  {
    hide Escape, ReplaceAll, Decode, Unescape, ValidToken, CanonicalIndex;
    if path != [] {
      assert Tokens(path)[1..] == Tokens(path[1..]);
      TokenReadsBack(path[0]);
      match path[0] {
        case Key(key) => WalkReaches(doc.fields[key], path[1..]);
        case Index(i) =>
          DecimalReadsBack(i);
          WalkReaches(doc.items[i], path[1..]);
      }
    }
  }

  /** The round trip: a location's pointer resolves to the node at that location. */
  lemma PointerRoundTrip(doc: Json, path: seq<Segment>)
    requires NodeAt(doc, path).Some?
    ensures Resolve(doc, PointerTo(path)) == Ok(NodeAt(doc, path).value)
  {
    PointerSplits(path);
    WalkReaches(doc, path);
  }

  /** Two locations of one document with the same pointer are the same location. */
  lemma {:induction false} PointersAreDistinct(doc: Json, a: seq<Segment>, b: seq<Segment>)
    requires NodeAt(doc, a).Some? && NodeAt(doc, b).Some? && PointerTo(a) == PointerTo(b)
    ensures a == b
  {
    PointerSplits(a);
    PointerSplits(b);
    if a != [] {
      assert b != [];
      SameTokens(doc, a, b);
    }
  }

  lemma {:induction false} SameTokens(doc: Json, a: seq<Segment>, b: seq<Segment>)
    requires NodeAt(doc, a).Some? && NodeAt(doc, b).Some? && Tokens(a) == Tokens(b)
    ensures a == b
    decreases a
  {
    hide Escape, ReplaceAll, Decode, Unescape, ValidToken, CanonicalIndex, PointerTo, Split, Decimal, AllDigits;
    PointerSplits(a);
    PointerSplits(b);
    if a != [] {
      assert Tokens(a)[1..] == Tokens(a[1..]) && Tokens(b)[1..] == Tokens(b[1..]);
      assert TokenOf(a[0]) == Tokens(a)[0] == Tokens(b)[0] == TokenOf(b[0]);
      TokenReadsBack(a[0]);
      TokenReadsBack(b[0]);
      if a[0].Index? {
        DecimalReadsBack(a[0].i);
        DecimalReadsBack(b[0].i);
        SameTokens(doc.items[a[0].i], a[1..], b[1..]);
      } else {
        SameTokens(doc.fields[a[0].key], a[1..], b[1..]);
      }
      SameCons(a, b);
    }
  }

  lemma SameCons(a: seq<Segment>, b: seq<Segment>)
    requires a != [] && b != [] && a[0] == b[0] && a[1..] == b[1..]
    ensures a == b
  {
    assert a == [a[0]] + a[1..] && b == [b[0]] + b[1..];
  }

  /** Key paths alone: the pointer determines the keys, document or no document. */
  lemma KeyPathsAreDistinct(a: seq<Segment>, b: seq<Segment>)
    requires (forall i | 0 <= i < |a| :: a[i].Key?) && forall i | 0 <= i < |b| :: b[i].Key?
    requires PointerTo(a) == PointerTo(b)
    ensures a == b
  {
    PointerSplits(a);
    PointerSplits(b);
    forall i | 0 <= i < |a| && |a| == |b|
      ensures a[i] == b[i]
    {
      TokenReadsBack(a[i]);
      TokenReadsBack(b[i]);
      assert Tokens(a)[i] == Tokens(b)[i];
    }
  }

  /** Whatever resolves is a sub-document, exactly as deep as the pointer has tokens. */
  lemma {:induction false} WalkFindsASubdocument(doc: Json, tokens: seq<string>) returns (path: seq<Segment>)
    requires Walk(doc, tokens).Ok?
    ensures |path| == |tokens| && NodeAt(doc, path) == Some(Walk(doc, tokens).value)
    decreases tokens
  {
    if tokens == [] {
      return [];
    }
    var part := Unescape(tokens[0]);
    var rest := WalkFindsASubdocument(Step(doc, part).value, tokens[1..]);
    path := [if doc.Obj? then Key(part) else Index(Atoi(part).value)] + rest;
    assert path[1..] == rest;
  }

  function ReferenceTokens(pointer: string): seq<string> {
    if pointer == "" then [] else Split(pointer[1..], '/')
  }

  lemma ResolvesToASubdocument(doc: Json, pointer: string)
    requires Resolve(doc, pointer).Ok?
    ensures exists path :: |path| == |ReferenceTokens(pointer)| && NodeAt(doc, path) == Some(Resolve(doc, pointer).value)
  {
    if pointer == "" {
      assert NodeAt(doc, []) == Some(doc);
    } else {
      var path := WalkFindsASubdocument(doc, ReferenceTokens(pointer));
    }
  }

  // ----- against the RFC's own evaluation ----------------------------------

  /** One token as the RFC reads it: malformed escapes and non-canonical indices are errors. */
  function RfcStep(current: Json, token: string): Option<Json> {
    if !ValidToken(token) then None
    else match current
      case Obj(fields) => if Decode(token) in fields then Some(fields[Decode(token)]) else None
      case Arr(items) =>
        if CanonicalIndex(token) && DigitsValue(token) < |items| then Some(items[DigitsValue(token)]) else None
      case _ => None
  }

  function RfcWalk(current: Json, tokens: seq<string>): Option<Json>
    decreases tokens
  {
    if tokens == [] then Some(current)
    else
      var next := RfcStep(current, tokens[0]);
      if next.None? then None else RfcWalk(next.value, tokens[1..])
  }

  /** The tokens the RFC accepts on the way down: well escaped, and canonical where they index an array. */
  predicate Strict(current: Json, tokens: seq<string>)
    decreases tokens
  {
    tokens == [] ||
    (ValidToken(tokens[0]) && (current.Arr? ==> CanonicalIndex(tokens[0]))
     && (var next := Step(current, Unescape(tokens[0])); next.Ok? ==> Strict(next.value, tokens[1..])))
  }

  lemma StepAgrees(current: Json, token: string)
    ensures RfcStep(current, token).Some? ==> Step(current, Unescape(token)) == Ok(RfcStep(current, token).value)
    ensures Step(current, Unescape(token)).Ok? && ValidToken(token) && (current.Arr? ==> CanonicalIndex(token))
            <==> RfcStep(current, token).Some?
  {
    TwoPassesAreOne(token);
    if AllDigits(token) {
      DigitsUntouched(token);
    }
  }

  /**
    The resolver extends the RFC: whatever the RFC resolves, it resolves to the same
    node, and it resolves more exactly when a token is not strict (a stray `~`, or an
    array index such as `007` or `+1` that Go's integer parser accepts).
  */
  lemma {:induction false} ResolverExtendsRfc(doc: Json, tokens: seq<string>)
    ensures RfcWalk(doc, tokens).Some? ==> Walk(doc, tokens) == Ok(RfcWalk(doc, tokens).value)
    ensures Walk(doc, tokens).Ok? ==> (RfcWalk(doc, tokens).Some? <==> Strict(doc, tokens))
    decreases tokens
  {
    if tokens != [] {
      StepAgrees(doc, tokens[0]);
      var next := Step(doc, Unescape(tokens[0]));
      if next.Ok? {
        ResolverExtendsRfc(next.value, tokens[1..]);
      }
    }
  }

  lemma {:induction false} LeadingZero(s: string)
    requires forall i | 0 <= i < |s| :: IsDigit(s[i])
    ensures DigitsValue("0" + s) == DigitsValue(s)
  {
    var z := "0" + s;
    if s == "" {
      assert z[..0] == "";
    } else {
      assert z[..|z| - 1] == "0" + s[..|s| - 1];
      LeadingZero(s[..|s| - 1]);
    }
  }

  /** Every index can also be written with a leading zero or a plus sign: the resolver takes both, the RFC neither. */
  lemma LenientIndices(items: seq<Json>, n: nat)
    requires n < |items|
    ensures var doc := Arr(items);
            Step(doc, Unescape("0" + Decimal(n))) == Step(doc, Unescape("+" + Decimal(n))) == Ok(items[n])
            && RfcStep(doc, "0" + Decimal(n)) == RfcStep(doc, "+" + Decimal(n)) == None
  {
    DecimalReadsBack(n);
    hide Decimal, ReplaceAll;
    var d := Decimal(n);
    LeadingZero(d);
    AtoiOfZeroed(d);
    AtoiOfSigned(d);
    assert !CanonicalIndex("0" + d) && !CanonicalIndex("+" + d) by {
      assert ("0" + d)[0] == '0' && ("+" + d)[0] == '+';
    }
  }

  lemma AtoiOfZeroed(d: string)
    requires AllDigits(d)
    ensures Atoi(Unescape("0" + d)) == Some(DigitsValue(d))
  {
    LeadingZero(d);
    TwoPassesAreOne("0" + d);
    DigitsUntouched("0" + d);
  }

  lemma AtoiOfSigned(d: string)
    requires AllDigits(d)
    ensures Atoi(Unescape("+" + d)) == Some(DigitsValue(d))
  {
    TwoPassesAreOne("+" + d);
    assert ("+" + d)[0] == '+' && ("+" + d)[1..] == d;
    DigitsUntouched(d);
    assert Decode("+" + d) == "+" + d;
    assert !AllDigits("+" + d) by { assert !IsDigit(("+" + d)[0]); }
  }
}
