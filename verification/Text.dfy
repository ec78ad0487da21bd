/** The string operations the modelled code takes from Go's `strings` package. */
module Text {

  /** `strings.ReplaceAll(s, from, to)`: occurrences are found left to right and do not overlap. */
  function ReplaceAll(s: string, from: string, to: string): string
    requires from != ""
  {
    if |s| < |from| then s
    else if s[..|from|] == from then to + ReplaceAll(s[|from|..], from, to)
    else [s[0]] + ReplaceAll(s[1..], from, to)
  }

  /** `strings.Split(s, sep)` for a one-character separator: always at least one part. */
  function Split(s: string, sep: char): (parts: seq<string>)
    ensures |parts| >= 1
  {
    if s == "" then [""]
    else
      var rest := Split(s[1..], sep);
      if s[0] == sep then [""] + rest else [[s[0]] + rest[0]] + rest[1..]
  }

  /** `strings.Join(parts, sep)` for a one-character separator. */
  function Join(parts: seq<string>, sep: char): string {
    if parts == [] then ""
    else if |parts| == 1 then parts[0]
    else parts[0] + [sep] + Join(parts[1..], sep)
  }

  /** Each part preceded by the separator; what `Join` appends after its first part. */
  function Prefixed(parts: seq<string>, sep: char): string {
    if parts == [] then "" else [sep] + parts[0] + Prefixed(parts[1..], sep)
  }

  /** `strings.Contains(s, sub)`. */
  predicate Contains(s: string, sub: string) {
    if |sub| > |s| then false else s[..|sub|] == sub || (s != "" && Contains(s[1..], sub))
  }

  /** `unicode.IsSpace`. */
  predicate IsSpace(c: char) {
    c in "\t\n\U{b}\U{c}\r \U{85}\U{a0}\U{1680}\U{2028}\U{2029}\U{202f}\U{205f}\U{3000}" || '\U{2000}' <= c <= '\U{200a}'
  }

  lemma {:induction false} JoinIsPrefixed(first: string, rest: seq<string>, sep: char)
    ensures Join([first] + rest, sep) == first + Prefixed(rest, sep)
    decreases |rest|
  {
    if rest == [] {
      assert [first] + rest == [first];
    } else {
      assert ([first] + rest)[1..] == rest == [rest[0]] + rest[1..];
      JoinIsPrefixed(rest[0], rest[1..], sep);
    }
  }

  lemma {:induction false} SplitPrefix(part: string, s: string, sep: char)
    requires sep !in part
    ensures Split(part + s, sep) == [part + Split(s, sep)[0]] + Split(s, sep)[1..]
  {
    if part == "" {
      assert part + s == s;
      assert part + Split(s, sep)[0] == Split(s, sep)[0];
    } else {
      assert (part + s)[1..] == part[1..] + s;
      SplitPrefix(part[1..], s, sep);
      assert [part[0]] + (part[1..] + Split(s, sep)[0]) == part + Split(s, sep)[0];
    }
  }

  /** Splitting undoes joining, as long as no part holds the separator. */
  lemma {:induction false} SplitOfJoin(parts: seq<string>, sep: char)
    requires parts != []
    requires forall i | 0 <= i < |parts| :: sep !in parts[i]
    ensures Split(Join(parts, sep), sep) == parts
  {
    if |parts| == 1 {
      SplitPrefix(parts[0], "", sep);
      assert parts[0] + "" == parts[0];
    } else {
      SplitOfJoin(parts[1..], sep);
      var rest := [sep] + Join(parts[1..], sep);
      assert rest[1..] == Join(parts[1..], sep);
      SplitPrefix(parts[0], rest, sep);
      assert parts[0] + [sep] + Join(parts[1..], sep) == parts[0] + rest;
      assert parts[0] + "" == parts[0];
    }
  }

  /** A string that holds `sub` after some prefix contains it. */
  lemma {:induction false} ContainsInside(a: string, sub: string, b: string)
    ensures Contains(a + sub + b, sub)
  {
    if a == "" {
      assert (a + sub + b)[..|sub|] == sub;
    } else {
      assert (a + sub + b)[1..] == a[1..] + sub + b;
      ContainsInside(a[1..], sub, b);
    }
  }

  lemma {:induction false} ContainsSplits(s: string, sub: string) returns (a: string, b: string)
    requires Contains(s, sub)
    ensures s == a + sub + b
  {
    if s[..|sub|] == sub {
      a, b := "", s[|sub|..];
    } else {
      a, b := ContainsSplits(s[1..], sub);
      a := [s[0]] + a;
    }
  }

  lemma ContainsWiden(a: string, s: string, b: string, sub: string)
    requires Contains(s, sub)
    ensures Contains(a + s + b, sub)
  {
    var x, y := ContainsSplits(s, sub);
    assert a + s + b == (a + x) + sub + (y + b);
    ContainsInside(a + x, sub, y + b);
  }
}
