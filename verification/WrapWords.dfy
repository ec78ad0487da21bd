/**
  The greedy line wrapper (internal/cli/fmt_eval.go). A `char` is a code point; line
  lengths are counted in UTF-8 bytes, as `strings.Builder.Len` and `len` count them.
*/
module WrapWords {
  import opened Text

  function RuneBytes(c: char): nat {
    if c < '\U{80}' then 1 else if c < '\U{800}' then 2 else if c < '\U{10000}' then 3 else 4
  }

  function Bytes(s: string): nat {
    if s == "" then 0 else RuneBytes(s[0]) + Bytes(s[1..])
  }

  function FieldsFrom(s: string, cur: string): seq<string>
    decreases s
  {
    var flushed := if cur == "" then [] else [cur];
    if s == "" then flushed
    else if IsSpace(s[0]) then flushed + FieldsFrom(s[1..], "")
    else FieldsFrom(s[1..], cur + [s[0]])
  }

  /** `strings.Fields`: the maximal runs of non-space characters. */
  function Fields(s: string): seq<string> { FieldsFrom(s, "") }

  predicate Word(w: string) { w != "" && forall i | 0 <= i < |w| :: !IsSpace(w[i]) }

  predicate Words(ws: seq<string>) { forall i | 0 <= i < |ws| :: Word(ws[i]) }

  /** A line as the words on it; its text is the words joined by single spaces. */
  type Line = seq<string>

  function LineText(line: Line): string { Join(line, ' ') }

  function Texts(lines: seq<Line>): seq<string> {
    if lines == [] then [] else [LineText(lines[0])] + Texts(lines[1..])
  }

  function Flatten(lines: seq<Line>): seq<string> {
    if lines == [] then [] else lines[0] + Flatten(lines[1..])
  }

  /** The lines the loop goes on to make from the line in progress and the words to come. */
  function WrapFrom(line: Line, words: seq<string>, width: int): seq<Line>
    decreases words
  {
    if words == [] then (if line == [] then [] else [line])
    else if line != [] && Bytes(LineText(line)) + 1 + Bytes(words[0]) > width then
      [line] + WrapFrom([words[0]], words[1..], width)
    else WrapFrom(line + [words[0]], words[1..], width)
  }

  function Wrap(words: seq<string>, width: int): seq<Line> { WrapFrom([], words, width) }

  method WrapString(s: string, width: int) returns (lines: seq<string>)
    ensures lines == Texts(Wrap(Fields(s), width))
  {
    hide WrapFrom, LineText, Texts, Bytes;
    lines := [];
    var cur := "";
    var words := Fields(s);
    ghost var line: Line := [];
    TextOfNothing(words, width);
    for i := 0 to |words|
      invariant cur == LineText(line) && (cur == "" <==> line == [])
      invariant lines + Texts(WrapFrom(line, words[i..], width)) == Texts(Wrap(words, width))
    {
      var word := words[i];
      FieldsAreWords(s, "");
      BytesPositive(cur);
      WrapStep(line, words, i, width);
      if Bytes(cur) > 0 && Bytes(cur) + 1 + Bytes(word) > width {
        assert lines + ([cur] + Texts(WrapFrom([word], words[i + 1..], width)))
            == lines + [cur] + Texts(WrapFrom([word], words[i + 1..], width));
        lines, cur := lines + [cur], "";
        line := [];
        BytesPositive(cur);
      }
      TextGrows(line, word);
      assert line == [] ==> line + [word] == [word];
      if Bytes(cur) > 0 {
        cur := cur + " ";
      }
      cur := cur + word;
      line := line + [word];
    }
    WrapStep(line, words, |words|, width);
    BytesPositive(cur);
    if Bytes(cur) > 0 {
      lines := lines + [cur];
    }
  }

  lemma TextOfNothing(words: seq<string>, width: int)
    ensures LineText([]) == "" && WrapFrom([], words[0..], width) == Wrap(words, width)
  {
    assert words[0..] == words;
  }

  /** One turn of the loop, on the texts of the lines to come; past the last word, the line in progress is all that is left. */
  lemma WrapStep(line: Line, words: seq<string>, i: nat, width: int)
    requires i <= |words|
    ensures Texts(WrapFrom(line, words[i..], width))
            == if i == |words| then (if line == [] then [] else [LineText(line)])
               else if line != [] && Bytes(LineText(line)) + 1 + Bytes(words[i]) > width
               then [LineText(line)] + Texts(WrapFrom([words[i]], words[i + 1..], width))
               else Texts(WrapFrom(line + [words[i]], words[i + 1..], width))
  {
    hide LineText, Bytes;
    if i < |words| {
      assert words[i..][0] == words[i] && words[i..][1..] == words[i + 1..];
      var rest := WrapFrom([words[i]], words[i + 1..], width);
      assert ([line] + rest)[1..] == rest;
    } else {
      assert [line][1..] == [];
    }
  }

  // ----- bytes, joins and fields -------------------------------------------

  lemma {:induction false} BytesAppend(a: string, b: string)
    ensures Bytes(a + b) == Bytes(a) + Bytes(b)
  {
    if a == "" {
      assert a + b == b;
    } else {
      assert (a + b)[0] == a[0] && (a + b)[1..] == a[1..] + b;
      BytesAppend(a[1..], b);
    }
  }

  /** Bytes never undercount runes, so a bound in bytes is a bound in runes. */
  lemma {:induction false} BytesPositive(s: string)
    ensures Bytes(s) >= |s| && (Bytes(s) > 0 <==> s != "")
  {
    if s != "" {
      BytesPositive(s[1..]);
    }
  }

  lemma {:induction false} PrefixedAppend(x: seq<string>, y: seq<string>)
    ensures Prefixed(x + y, ' ') == Prefixed(x, ' ') + Prefixed(y, ' ')
  {
    if x == [] {
      assert x + y == y;
    } else {
      assert (x + y)[0] == x[0] && (x + y)[1..] == x[1..] + y;
      PrefixedAppend(x[1..], y);
    }
  }

  lemma TextGrows(line: Line, word: string)
    ensures LineText(line + [word]) == if line == [] then word else LineText(line) + " " + word
    ensures line != [] ==> Bytes(LineText(line + [word])) == Bytes(LineText(line)) + 1 + Bytes(word)
  {
    if line != [] {
      assert line == [line[0]] + line[1..] && line + [word] == [line[0]] + (line[1..] + [word]);
      JoinIsPrefixed(line[0], line[1..], ' ');
      JoinIsPrefixed(line[0], line[1..] + [word], ' ');
      PrefixedAppend(line[1..], [word]);
      assert Prefixed([word], ' ') == " " + word by { assert [word][1..] == []; }
      BytesAppend(LineText(line), " " + word);
      BytesAppend(" ", word);
      assert Bytes(" ") == 1 by { assert " "[1..] == ""; }
      assert LineText(line) + (" " + word) == LineText(line) + " " + word;
    }
  }

  lemma {:induction false} FieldsAreWords(s: string, cur: string)
    requires forall i | 0 <= i < |cur| :: !IsSpace(cur[i])
    ensures Words(FieldsFrom(s, cur))
    decreases s
  {
    if s != "" {
      FieldsAreWords(s[1..], if IsSpace(s[0]) then "" else cur + [s[0]]);
    }
  }

  lemma {:induction false} FieldsOfWord(w: string, s: string, cur: string)
    requires forall i | 0 <= i < |w| :: !IsSpace(w[i])
    ensures FieldsFrom(w + s, cur) == FieldsFrom(s, cur + w)
    decreases w
  {
    if w == "" {
      assert w + s == s && cur + w == cur;
    } else {
      assert (w + s)[1..] == w[1..] + s;
      FieldsOfWord(w[1..], s, cur + [w[0]]);
      assert cur + [w[0]] + w[1..] == cur + w;
    }
  }

  lemma {:induction false} FieldsFromSplits(a: string, sp: char, b: string, cur: string)
    requires IsSpace(sp)
    ensures FieldsFrom(a + [sp] + b, cur) == FieldsFrom(a, cur) + Fields(b)
    decreases a
  {
    hide IsSpace;
    var s := a + [sp] + b;
    if a == "" {
      assert s[0] == sp && s[1..] == b;
    } else {
      assert s[0] == a[0] && s[1..] == a[1..] + [sp] + b;
      FieldsFromSplits(a[1..], sp, b, if IsSpace(a[0]) then "" else cur + [a[0]]);
    }
  }

  /** Fields are the words between spaces: a space anywhere splits, a word is its own, and nothing has none. */
  lemma FieldsExactly(a: string, sp: char, b: string)
    ensures IsSpace(sp) ==> Fields(a + [sp] + b) == Fields(a) + Fields(b)
    ensures Word(a) ==> Fields(a) == [a]
    ensures Fields("") == []
  {
    if IsSpace(sp) {
      FieldsFromSplits(a, sp, b, "");
    }
    if Word(a) {
      FieldsOfWord(a, "", "");
      assert a + "" == a && "" + a == a;
    }
  }

  function Pow2(n: nat): nat { if n == 0 then 1 else 2 * Pow2(n - 1) }

  /** The bits a UTF-8 sequence of so many bytes carries: seven, or five for each byte and one more. */
  function Payload(bytes: nat): nat { if bytes <= 1 then 7 * bytes else 5 * bytes + 1 }

  lemma PowersOfTwo()
    ensures Pow2(0) == 1 && Pow2(7) == 0x80 && Pow2(11) == 0x800 && Pow2(16) == 0x1_0000 && Pow2(21) == 0x20_0000
  {
    assert Pow2(4) == 16;
    assert Pow2(8) == 256;
    assert Pow2(12) == 4096;
    assert Pow2(20) == 0x10_0000 by {
      assert Pow2(16) == 0x1_0000;
    }
  }

  /** Each rune takes the fewest bytes whose payload holds it. */
  lemma RuneBytesAreFewest(c: char)
    ensures 1 <= RuneBytes(c) <= 4 && c as int < Pow2(Payload(RuneBytes(c)))
    ensures RuneBytes(c) > 1 ==> c as int >= Pow2(Payload(RuneBytes(c) - 1))
  {
    PowersOfTwo();
  }

  /** Joined words split back into themselves. */
  lemma {:induction false} FieldsOfText(words: seq<string>)
    requires Words(words)
    ensures Fields(LineText(words)) == words
  {
    if words != [] {
      var rest := if |words| == 1 then "" else [' '] + LineText(words[1..]);
      assert LineText(words) == words[0] + rest;
      FieldsOfWord(words[0], rest, "");
      assert "" + words[0] == words[0];
      if |words| > 1 {
        FieldsOfText(words[1..]);
        assert rest[1..] == LineText(words[1..]);
      }
    }
  }

  // ----- lossless and valid ------------------------------------------------

  predicate Fits(line: Line, width: int) { |line| == 1 || Bytes(LineText(line)) <= width }

  /** A breaking of `words` into non-empty lines that each fit the width or are one word. */
  predicate Breaks(lines: seq<Line>, words: seq<string>, width: int) {
    Flatten(lines) == words && forall i | 0 <= i < |lines| :: lines[i] != [] && Fits(lines[i], width)
  }

  lemma {:induction false} WrapBreaks(line: Line, words: seq<string>, width: int)
    requires line != [] ==> Fits(line, width)
    ensures Breaks(WrapFrom(line, words, width), line + words, width)
    decreases words
  {
    hide LineText, Bytes;
    if words == [] {
      assert line != [] ==> Flatten([line]) == line by { assert [line][1..] == []; }
    } else if line != [] && Bytes(LineText(line)) + 1 + Bytes(words[0]) > width {
      WrapBreaks([words[0]], words[1..], width);
      var rest := WrapFrom([words[0]], words[1..], width);
      assert ([line] + rest)[1..] == rest;
      assert line + ([words[0]] + words[1..]) == line + words;
    } else {
      TextGrows(line, words[0]);
      WrapBreaks(line + [words[0]], words[1..], width);
      assert line + [words[0]] + words[1..] == line + words;
    }
  }

  lemma {:induction false} TextsJoin(lines: seq<Line>)
    requires forall i | 0 <= i < |lines| :: lines[i] != []
    ensures Join(Texts(lines), ' ') == LineText(Flatten(lines)) && |Texts(lines)| == |lines|
    ensures forall i | 0 <= i < |lines| :: Texts(lines)[i] == LineText(lines[i])
  {
    if |lines| == 1 {
      assert lines[1..] == [] && Flatten(lines) == lines[0];
    } else if lines != [] {
      TextsJoin(lines[1..]);
      var first, rest := lines[0], Flatten(lines[1..]);
      assert lines[1..] == [lines[1]] + lines[2..] && Flatten(lines[1..]) == lines[1] + Flatten(lines[2..]);
      assert Texts(lines)[1..] == Texts(lines[1..]);
      TextConcat(first, rest);
    }
  }

  lemma TextConcat(a: Line, b: Line)
    requires a != [] && b != []
    ensures LineText(a + b) == LineText(a) + [' '] + LineText(b)
  {
    assert a == [a[0]] + a[1..] && b == [b[0]] + b[1..] && a + b == [a[0]] + (a[1..] + b);
    JoinIsPrefixed(a[0], a[1..], ' ');
    JoinIsPrefixed(b[0], b[1..], ' ');
    JoinIsPrefixed(a[0], a[1..] + b, ' ');
    PrefixedAppend(a[1..], b);
    assert Prefixed(b, ' ') == [' '] + b[0] + Prefixed(b[1..], ' ');
  }

  /** Every line is as full as the next word lets it be: greedy, and only one breaking is. */
  lemma {:induction false} LinesAreFull(line: Line, words: seq<string>, width: int)
    ensures var lines := WrapFrom(line, words, width);
            (line != [] ==> lines != [] && line <= lines[0])
            && (forall i | 0 <= i < |lines| :: lines[i] != [])
            && forall i | 0 < i < |lines| :: Bytes(LineText(lines[i - 1])) + 1 + Bytes(lines[i][0]) > width
    decreases words
  {
    hide LineText, Bytes;
    if words != [] {
      if line != [] && Bytes(LineText(line)) + 1 + Bytes(words[0]) > width {
        LinesAreFull([words[0]], words[1..], width);
        var rest := WrapFrom([words[0]], words[1..], width);
        assert rest[0][0] == words[0];
      } else {
        LinesAreFull(line + [words[0]], words[1..], width);
      }
    }
  }

  // ----- fewest lines ------------------------------------------------------

  /** How many lines the loop ends with, given only how long the line in progress is. */
  function Count(len: nat, words: seq<string>, width: int): nat
    decreases words
  {
    if words == [] then 1
    else if len + 1 + Bytes(words[0]) > width then 1 + Count(Bytes(words[0]), words[1..], width)
    else Count(len + 1 + Bytes(words[0]), words[1..], width)
  }

  lemma {:induction false} CountIsLines(line: Line, words: seq<string>, width: int)
    requires line != []
    ensures |WrapFrom(line, words, width)| == Count(Bytes(LineText(line)), words, width)
    decreases words
  {
    if words != [] {
      TextGrows(line, words[0]);
      if Bytes(LineText(line)) + 1 + Bytes(words[0]) > width {
        CountIsLines([words[0]], words[1..], width);
      } else {
        CountIsLines(line + [words[0]], words[1..], width);
      }
    }
  }

  /** A shorter line in progress never costs a line, and no head start is worth more than one. */
  lemma {:induction false} HeadStart(a: nat, b: nat, words: seq<string>, width: int)
    ensures a <= b ==> Count(a, words, width) <= Count(b, words, width)
    ensures Count(b, words, width) <= 1 + Count(a, words, width)
    decreases words
  {
    if words != [] {
      var n, rest := Bytes(words[0]), words[1..];
      HeadStart(n, a + 1 + n, rest, width);
      HeadStart(n, b + 1 + n, rest, width);
      HeadStart(a + 1 + n, b + 1 + n, rest, width);
    }
  }

  /**
    The exchange argument: while the other breaking fills its line `current`, the greedy
    line is no longer than it, so greedy is never a line behind.
  */
  lemma {:induction false} GreedyStaysAhead(len: nat, current: Line, todo: Line, lines: seq<Line>, width: int)
    requires current != [] && len <= Bytes(LineText(current))
    requires current + todo != [] && Fits(current + todo, width)
    requires forall i | 0 <= i < |lines| :: lines[i] != [] && Fits(lines[i], width)
    ensures Count(len, todo + Flatten(lines), width) <= 1 + |lines|
    decreases |lines|, |todo|
  {
    hide LineText;
    var words := todo + Flatten(lines);
    if todo != [] {
      TextGrows(current, todo[0]);
      var grown := current + [todo[0]];
      assert grown + todo[1..] == current + todo;
      TextShorter(grown, todo[1..]);
      assert words[1..] == todo[1..] + Flatten(lines);
      GreedyStaysAhead(len + 1 + Bytes(todo[0]), grown, todo[1..], lines, width);
    } else if lines != [] {
      var next := lines[0];
      assert words == next + Flatten(lines[1..]) && words[1..] == next[1..] + Flatten(lines[1..]);
      assert [next[0]] + next[1..] == next;
      var n := Bytes(next[0]);
      OneWord(next[0]);
      GreedyStaysAhead(n, [next[0]], next[1..], lines[1..], width);
      HeadStart(n, len + 1 + n, words[1..], width);
    }
  }

  lemma OneWord(word: string)
    ensures LineText([word]) == word
  {
  }

  lemma {:induction false} TextShorter(line: Line, more: Line)
    requires line != []
    ensures Bytes(LineText(line)) <= Bytes(LineText(line + more))
    decreases more
  {
    hide LineText, Bytes;
    if more == [] {
      assert line + more == line;
    } else {
      TextGrows(line, more[0]);
      TextShorter(line + [more[0]], more[1..]);
      assert line + [more[0]] + more[1..] == line + more;
    }
  }

  /** No breaking of the same words into fitting lines has fewer lines. */
  lemma WrapIsFewest(words: seq<string>, width: int, lines: seq<Line>)
    requires Breaks(lines, words, width)
    ensures |Wrap(words, width)| <= |lines|
  {
    if words != [] {
      var first := lines[0];
      assert words == first + Flatten(lines[1..]);
      assert [] + [words[0]] == [words[0]];
      CountIsLines([words[0]], words[1..], width);
      assert [first[0]] + first[1..] == first && words[1..] == first[1..] + Flatten(lines[1..]);
      GreedyStaysAhead(Bytes(words[0]), [first[0]], first[1..], lines[1..], width);
    }
  }

  // ----- the whole function ------------------------------------------------

  function WrappedLines(s: string, width: int): seq<string> { Texts(Wrap(Fields(s), width)) }

  /**
    `wrapWords` on any string and width: no word is lost or reordered, and every line is
    within the width in bytes, hence in runes, or is a single word.
  */
  lemma WrapIsLosslessAndValid(s: string, width: int)
    ensures Join(WrappedLines(s, width), ' ') == Join(Fields(s), ' ')
    ensures forall i | 0 <= i < |WrappedLines(s, width)| ::
              |WrappedLines(s, width)[i]| <= Bytes(WrappedLines(s, width)[i])
              && (Bytes(WrappedLines(s, width)[i]) <= width || Word(WrappedLines(s, width)[i]))
  {
    var words := Fields(s);
    var lines := Wrap(words, width);
    FieldsAreWords(s, "");
    WrapBreaks([], words, width);
    assert [] + words == words;
    TextsJoin(lines);
    forall i | 0 <= i < |lines|
      ensures |Texts(lines)[i]| <= Bytes(Texts(lines)[i]) && (Bytes(Texts(lines)[i]) <= width || Word(Texts(lines)[i]))
    {
      BytesPositive(Texts(lines)[i]);
      if |lines[i]| == 1 {
        InFlatten(lines, i);
        assert lines[i][0] in words;
      }
    }
  }

  lemma {:induction false} InFlatten(lines: seq<Line>, i: nat)
    requires i < |lines|
    ensures forall w <- lines[i] :: w in Flatten(lines)
  {
    if i > 0 {
      InFlatten(lines[1..], i - 1);
    }
  }

  /** Wrapping its own output, joined again, changes nothing. */
  lemma WrapTwice(s: string, width: int)
    ensures WrappedLines(Join(WrappedLines(s, width), ' '), width) == WrappedLines(s, width)
  {
    WrapIsLosslessAndValid(s, width);
    FieldsAreWords(s, "");
    FieldsOfText(Fields(s));
  }

  /** And it is shortest: any other way to break the words into valid lines has at least as many. */
  lemma WrapIsShortest(s: string, width: int, lines: seq<Line>)
    requires Breaks(lines, Fields(s), width)
    ensures |WrappedLines(s, width)| <= |lines|
  {
    WrapIsFewest(Fields(s), width, lines);
    WrapBreaks([], Fields(s), width);
    TextsJoin(Wrap(Fields(s), width));
  }

  // ----- runes and bytes ---------------------------------------------------

  /** The loop as its comment has it, with lengths counted in runes. */
  function RuneWrapFrom(line: Line, words: seq<string>, width: int): (lines: seq<Line>)
    ensures line != [] ==> lines != [] && line <= lines[0]
    decreases words
  {
    if words == [] then (if line == [] then [] else [line])
    else if line != [] && |LineText(line)| + 1 + |words[0]| > width then
      [line] + RuneWrapFrom([words[0]], words[1..], width)
    else RuneWrapFrom(line + [words[0]], words[1..], width)
  }

  function RuneWrap(words: seq<string>, width: int): seq<Line> { RuneWrapFrom([], words, width) }

  predicate AllFit(lines: seq<Line>, width: int) { forall i | 0 <= i < |lines| :: Fits(lines[i], width) }

  /** Where every line the rune count makes also fits in bytes, the byte count breaks at the same words. */
  lemma {:induction false} FittingRunesAgree(line: Line, words: seq<string>, width: int)
    requires AllFit(RuneWrapFrom(line, words, width), width)
    ensures WrapFrom(line, words, width) == RuneWrapFrom(line, words, width)
    decreases words
  {
    hide LineText, Bytes;
    if words != [] {
      var lines := RuneWrapFrom(line, words, width);
      BytesPositive(LineText(line));
      BytesPositive(words[0]);
      if line != [] && |LineText(line)| + 1 + |words[0]| > width {
        assert lines[1..] == RuneWrapFrom([words[0]], words[1..], width);
        FittingRunesAgree([words[0]], words[1..], width);
      } else {
        var grown := line + [words[0]];
        if line != [] {
          TextGrows(line, words[0]);
          TextShorter(grown, lines[0][|grown|..]);
          assert grown + lines[0][|grown|..] == lines[0];
        }
        FittingRunesAgree(grown, words[1..], width);
      }
    }
  }

  /** Different breakings of words have different texts. */
  lemma {:induction false} TextsDecide(a: seq<Line>, b: seq<Line>)
    requires forall i | 0 <= i < |a| :: a[i] != [] && Words(a[i])
    requires forall i | 0 <= i < |b| :: b[i] != [] && Words(b[i])
    requires Texts(a) == Texts(b)
    ensures a == b
    decreases a
  {
    TextsJoin(a);
    TextsJoin(b);
    if a != [] {
      FieldsOfText(a[0]);
      FieldsOfText(b[0]);
      assert Texts(a)[1..] == Texts(a[1..]) && Texts(b)[1..] == Texts(b[1..]);
      TextsDecide(a[1..], b[1..]);
      assert a == [a[0]] + a[1..] && b == [b[0]] + b[1..];
    }
  }

  lemma {:induction false} RuneWrapBreaks(line: Line, words: seq<string>, width: int)
    ensures var lines := RuneWrapFrom(line, words, width);
            Flatten(lines) == line + words && forall i | 0 <= i < |lines| :: lines[i] != []
    decreases words
  {
    hide LineText;
    if words == [] {
      assert line != [] ==> Flatten([line]) == line by { assert [line][1..] == []; }
    } else if line != [] && |LineText(line)| + 1 + |words[0]| > width {
      RuneWrapBreaks([words[0]], words[1..], width);
      var rest := RuneWrapFrom([words[0]], words[1..], width);
      assert ([line] + rest)[1..] == rest;
      assert line + ([words[0]] + words[1..]) == line + words;
    } else {
      RuneWrapBreaks(line + [words[0]], words[1..], width);
      assert line + [words[0]] + words[1..] == line + words;
    }
  }

  lemma LinesOfWords(lines: seq<Line>)
    requires Words(Flatten(lines))
    ensures forall i | 0 <= i < |lines| :: Words(lines[i])
  {
    forall i | 0 <= i < |lines|
      ensures Words(lines[i])
    {
      InFlatten(lines, i);
      assert forall w <- Flatten(lines) :: Word(w);
      assert forall k | 0 <= k < |lines[i]| :: lines[i][k] in lines[i];
    }
  }

  /**
    The comment speaks of runes. The byte count gives the lines the rune count would, on any
    string and width, if and only if each of those lines fits the width in bytes as well
    or is one word.
  */
  lemma RunesAgreeExactly(s: string, width: int)
    ensures WrappedLines(s, width) == Texts(RuneWrap(Fields(s), width)) <==> AllFit(RuneWrap(Fields(s), width), width)
  {
    var words := Fields(s);
    var lines, runes := Wrap(words, width), RuneWrap(words, width);
    if AllFit(runes, width) {
      FittingRunesAgree([], words, width);
    } else if Texts(lines) == Texts(runes) {
      FieldsAreWords(s, "");
      WrapBreaks([], words, width);
      RuneWrapBreaks([], words, width);
      assert [] + words == words;
      LinesOfWords(lines);
      LinesOfWords(runes);
      TextsDecide(lines, runes);
      assert false;
    }
  }

  /**
    And they do differ, in the number of lines too: two one-rune words of two bytes each fit
    a width of three, yet end on two lines.
  */
  lemma RunesCanFitOneLine()
    ensures var words := ["\U{e9}", "\U{e8}"];
            |LineText(words)| <= 3 && |Wrap(words, 3)| == 2
  {
    var a, b := "\U{e9}", "\U{e8}";
    assert Bytes(a) == 2 by { assert a[1..] == ""; }
    assert Bytes(b) == 2 by { assert b[1..] == ""; }
    assert [a, b][1..] == [b] && [b][1..] == [] && [] + [a] == [a];
    assert Wrap([a, b], 3) == WrapFrom([a], [b], 3);
    assert WrapFrom([a], [b], 3) == [[a]] + WrapFrom([b], [], 3);
  }
}
