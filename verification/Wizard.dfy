/**
  The init wizard (internal/cli/init_wizard.go): questions answered from an input that may
  end at any point. `closed` is set when it does; from then on nothing is asked.
*/
module Wizard {
  import opened Basics
  import opened Numbers
  import opened Text

  /** What is left to read, and whether the end has been seen. */
  datatype Input = Input(rest: string, closed: bool)

  /** `bufio.Reader.ReadString('\n')`: up to and with the newline, or what is left and the end. */
  function LineEnd(s: string): (n: nat)
    ensures n <= |s|
    ensures forall i | 0 <= i < n - 1 :: s[i] != '\n'
    ensures s != "" ==> n > 0
    ensures n > 0 && s[n - 1] != '\n' ==> n == |s|
  {
    if s == "" then 0 else if s[0] == '\n' then 1 else 1 + LineEnd(s[1..])
  }

  predicate EndsInNewline(line: string) { line != "" && line[|line| - 1] == '\n' }

  function TrimLeft(s: string): string {
    if s != "" && IsSpace(s[0]) then TrimLeft(s[1..]) else s
  }

  function TrimRight(s: string): string {
    if s != "" && IsSpace(s[|s| - 1]) then TrimRight(s[..|s| - 1]) else s
  }

  /** `strings.TrimSpace`. */
  function Trim(s: string): string { TrimRight(TrimLeft(s)) }

  /** `line`: one answer, trimmed; none once input has ended. */
  function Line(st: Input): (Input, Option<string>) {
    if st.closed then (st, None)
    else
      var n := LineEnd(st.rest);
      var line := st.rest[..n];
      var next := st.(rest := st.rest[n..]);
      if !EndsInNewline(line) && Trim(line) == "" then (next.(closed := true), None)
      else (next, Some(Trim(line)))
  }

  /** A line is taken or the input closes, so every retry has less to read. */
  lemma LineConsumes(st: Input)
    ensures st.closed ==> Line(st) == (st, None)
    ensures !st.closed ==> (Line(st).1.None? <==> Line(st).0.closed)
    ensures Line(st).1.Some? ==> |Line(st).0.rest| < |st.rest|
    ensures |Line(st).0.rest| <= |st.rest| && Line(st).0.rest == st.rest[|st.rest| - |Line(st).0.rest|..]
  {
  }

  function SkipOr(skippable: bool, def: int): int { if skippable then -1 else def }

  /** `choose` among `n` options. */
  function Choose(st: Input, n: nat, def: int, skippable: bool): (Input, int)
    decreases |st.rest|
  {
    if st.closed then (st, SkipOr(skippable, def))
    else
      LineConsumes(st);
      var (next, ans) := Line(st);
      if ans.None? || ans.value == "" then (next, SkipOr(skippable, def))
      else
        var k := Atoi(ans.value);
        if k.Some? && 1 <= k.value <= n then (next, k.value - 1)
        else Choose(next, n, def, skippable)
  }

  function TrimDollar(s: string): string { if s != "" && s[0] == '$' then s[1..] else s }

  /** `amount`, over whatever reading of a number is given. */
  function Amount(st: Input, parse: string -> Option<real>): (Input, real)
    decreases |st.rest|
  {
    if st.closed then (st, 0.0)
    else
      LineConsumes(st);
      var (next, raw) := Line(st);
      if raw.None? || TrimDollar(raw.value) == "" then (next, 0.0)
      else
        var v := parse(ReplaceAll(TrimDollar(raw.value), ",", "."));
        if v.Some? && v.value > 0.0 then (next, v.value) else Amount(next, parse)
  }

  function Lower(s: string): string {
    seq(|s|, i requires 0 <= i < |s| => if 'A' <= s[i] <= 'Z' then 'a' + (s[i] - 'A') else s[i])
  }

  /** The answers `confirm` takes for yes. */
  predicate SaysYes(ans: string, def: bool) { if ans == "" then def else Lower(ans) == "y" || Lower(ans) == "yes" }

  /** `confirm`: a closed input, and an end found while asking, are both no, whatever the default. */
  function Confirm(st: Input, def: bool): (Input, bool) {
    if st.closed then (st, false)
    else
      var (next, ans) := Line(st);
      (next, ans.Some? && SaysYes(ans.value, def))
  }

  datatype SetupStep = SetupStep(name: string, manual: bool)

  predicate WantsDaemon(s: SetupStep) { s.name == "daemon unit" && s.manual }

  /** `daemon`: how often it called `installDaemon`. */
  function Daemon(st: Input, steps: seq<SetupStep>): (Input, nat)
    decreases steps
  {
    if steps == [] then (st, 0)
    else if !WantsDaemon(steps[0]) then Daemon(st, steps[1..])
    else
      var (next, yes) := Confirm(st, true);
      (next, if yes then 1 else 0)
  }

  // ----- the object --------------------------------------------------------

  class Asker {
    var input: string
    var closed: bool
    /** How often `installDaemon` was called. */
    var installs: nat
    const parse: string -> Option<real>

    constructor (input: string, parse: string -> Option<real>)
      ensures State() == Input(input, false) && installs == 0 && this.parse == parse
    {
      this.input, closed, installs, this.parse := input, false, 0, parse;
    }

    function State(): Input
      reads this
    {
      Input(input, closed)
    }

    method ReadAnswer() returns (ans: Option<string>)
      modifies this`input, this`closed
      ensures (State(), ans) == Line(old(State()))
    {
      if closed {
        return None;
      }
      var n := LineEnd(input);
      var line := input[..n];
      input := input[n..];
      if !EndsInNewline(line) && Trim(line) == "" {
        closed := true;
        return None;
      }
      return Some(Trim(line));
    }

    method AskChoice(n: nat, def: int, skippable: bool) returns (choice: int)
      modifies this`input, this`closed
      ensures (State(), choice) == Choose(old(State()), n, def, skippable)
    {
      hide Line, Atoi;
      if closed {
        return SkipOr(skippable, def);
      }
      while true
        invariant Choose(State(), n, def, skippable) == Choose(old(State()), n, def, skippable)
        invariant !closed
        decreases |input|
      {
        LineConsumes(State());
        var ans := ReadAnswer();
        if ans.None? || ans.value == "" {
          return SkipOr(skippable, def);
        }
        var k := Atoi(ans.value);
        if k.Some? && k.value >= 1 && k.value <= n {
          return k.value - 1;
        }
      }
    }

    method AskAmount() returns (v: real)
      modifies this`input, this`closed
      ensures (State(), v) == Amount(old(State()), parse)
    {
      hide Line, TrimDollar, ReplaceAll;
      while true
        invariant Amount(State(), parse) == Amount(old(State()), parse)
        decreases |input|
      {
        if closed {
          return 0.0;
        }
        LineConsumes(State());
        var raw := ReadAnswer();
        if raw.None? || TrimDollar(raw.value) == "" {
          return 0.0;
        }
        var amount := parse(ReplaceAll(TrimDollar(raw.value), ",", "."));
        if amount.Some? && amount.value > 0.0 {
          return amount.value;
        }
      }
    }

    method AskConfirm(def: bool) returns (yes: bool)
      modifies this`input, this`closed
      ensures (State(), yes) == Confirm(old(State()), def)
    {
      if closed {
        return false;
      }
      var ans := ReadAnswer();
      if ans.None? {
        return false;
      }
      if ans.value == "" {
        return def;
      }
      return Lower(ans.value) == "y" || Lower(ans.value) == "yes";
    }

    method OfferDaemon(steps: seq<SetupStep>)
      modifies this
      ensures State() == Daemon(old(State()), steps).0
      ensures installs == old(installs) + Daemon(old(State()), steps).1
    {
      assert steps[0..] == steps;
      for i := 0 to |steps|
        invariant State() == old(State()) && installs == old(installs)
        invariant Daemon(State(), steps[i..]) == Daemon(State(), steps)
      {
        assert steps[i..][0] == steps[i] && steps[i..][1..] == steps[i + 1..];
        if steps[i].name != "daemon unit" || !steps[i].manual {
          continue;
        }
        var yes := AskConfirm(true);
        if yes {
          installs := installs + 1;
        }
        return;
      }
      assert steps[|steps|..] == [];
    }
  }

  // ----- runs of questions -------------------------------------------------

  datatype Question =
    | ChooseQ(n: nat, def: int, skippable: bool)
    | AmountQ
    | ConfirmQ(default: bool)
    | DaemonQ(steps: seq<SetupStep>)

  datatype Answer = Chosen(index: int) | Paid(amount: real) | Said(yes: bool) | Installed(times: nat)

  function Ask(st: Input, q: Question, parse: string -> Option<real>): (Input, Answer) {
    match q
    case ChooseQ(n, def, skippable) => var (next, i) := Choose(st, n, def, skippable); (next, Chosen(i))
    case AmountQ => var (next, v) := Amount(st, parse); (next, Paid(v))
    case ConfirmQ(def) => var (next, yes) := Confirm(st, def); (next, Said(yes))
    case DaemonQ(steps) => var (next, times) := Daemon(st, steps); (next, Installed(times))
  }

  /** What init does with a question it cannot ask. */
  function Unasked(q: Question): Answer {
    match q
    case ChooseQ(_, def, skippable) => Chosen(SkipOr(skippable, def))
    case AmountQ => Paid(0.0)
    case ConfirmQ(_) => Said(false)
    case DaemonQ(_) => Installed(0)
  }

  function AskAll(st: Input, qs: seq<Question>, parse: string -> Option<real>): (Input, seq<Answer>)
    decreases qs
  {
    if qs == [] then (st, [])
    else
      var (next, a) := Ask(st, qs[0], parse);
      var (end, rest) := AskAll(next, qs[1..], parse);
      (end, [a] + rest)
  }

  /** The line read at `at`, somewhere in what `from` had left, is the last one before `to`. */
  predicate Typed(at: Input, from: Input, to: Input) {
    |at.rest| <= |from.rest| && at.rest == from.rest[|from.rest| - |at.rest|..] && Line(at).1.Some? && Line(at).0 == to
  }

  /** The answer is the number that was typed, or Enter's default. */
  predicate ChoiceTyped(ans: string, i: int, n: nat, def: int, skippable: bool) {
    if ans == "" then i == SkipOr(skippable, def) else Atoi(ans) == Some(i + 1) && 0 <= i < n
  }

  lemma {:induction false} ChooseEnds(st: Input, n: nat, def: int, skippable: bool)
    ensures var (next, i) := Choose(st, n, def, skippable);
            (next.closed ==> i == SkipOr(skippable, def)) && (st.closed ==> next == st)
            && (i == SkipOr(skippable, def) || 0 <= i < n)
            && |next.rest| <= |st.rest| && (!st.closed && !next.closed ==> |next.rest| < |st.rest|)
            && (next.closed || exists at :: Typed(at, st, next) && ChoiceTyped(Line(at).1.value, i, n, def, skippable))
    decreases |st.rest|
  {
    hide Trim, LineEnd, Atoi;
    LineConsumes(st);
    var (next, ans) := Line(st);
    if !st.closed && ans.Some? {
      assert Typed(st, st, next);
    }
    if !st.closed && ans.Some? && ans.value != "" && !(Atoi(ans.value).Some? && 1 <= Atoi(ans.value).value <= n) {
      ChooseEnds(next, n, def, skippable);
      var end := Choose(next, n, def, skippable).0;
      if !end.closed {
        var at :| Typed(at, next, end) && ChoiceTyped(Line(at).1.value, Choose(next, n, def, skippable).1, n, def, skippable);
        assert Typed(at, st, end);
      }
    }
  }

  lemma {:induction false} AmountEnds(st: Input, parse: string -> Option<real>)
    ensures var (next, v) := Amount(st, parse);
            (next.closed ==> v == 0.0) && (st.closed ==> next == st) && v >= 0.0
            && |next.rest| <= |st.rest| && (!st.closed && !next.closed ==> |next.rest| < |st.rest|)
            && (v > 0.0 ==> exists at :: Typed(at, st, next) && parse(ReplaceAll(TrimDollar(Line(at).1.value), ",", ".")) == Some(v))
    decreases |st.rest|
  {
    hide Trim, LineEnd, TrimDollar, ReplaceAll;
    LineConsumes(st);
    var (next, raw) := Line(st);
    if !st.closed && raw.Some? {
      assert Typed(st, st, next);
    }
    if !st.closed && raw.Some? && TrimDollar(raw.value) != "" {
      var v := parse(ReplaceAll(TrimDollar(raw.value), ",", "."));
      if !(v.Some? && v.value > 0.0) {
        AmountEnds(next, parse);
        var (end, w) := Amount(next, parse);
        if w > 0.0 {
          var at :| Typed(at, next, end) && parse(ReplaceAll(TrimDollar(Line(at).1.value), ",", ".")) == Some(w);
          assert Typed(at, st, end);
        }
      }
    }
  }

  /**
    A `choose` answer is one of the options or the skip, never past either end; and unless
    the input ended it is what the last line read asked for.
  */
  lemma ChoiceIsInRange(st: Input, n: nat, def: int, skippable: bool)
    requires 0 <= def < n
    ensures var (next, i) := Choose(st, n, def, skippable);
            (if skippable then -1 <= i < n else 0 <= i < n)
            && (next.closed || exists at :: Typed(at, st, next) && ChoiceTyped(Line(at).1.value, i, n, def, skippable))
  {
    ChooseEnds(st, n, def, skippable);
  }

  predicate WantsOne(steps: seq<SetupStep>) { exists s <- steps :: WantsDaemon(s) }

  /** `installDaemon` runs at most once, and only on a line that was read and said yes. */
  lemma {:induction false} DaemonNeedsAnAnswer(st: Input, steps: seq<SetupStep>)
    ensures var (next, times) := Daemon(st, steps);
            times <= 1 && (next.closed ==> times == 0)
            && (times == 1 <==> WantsOne(steps) && Line(st).1.Some? && SaysYes(Line(st).1.value, true))
            && next == (if WantsOne(steps) then Line(st).0 else st)
    decreases steps
  {
    LineConsumes(st);
    if steps != [] {
      if !WantsDaemon(steps[0]) {
        DaemonNeedsAnAnswer(st, steps[1..]);
        assert forall s <- steps :: s == steps[0] || s in steps[1..];
      } else {
        assert steps[0] in steps;
      }
    }
  }

  /** Whenever a question ends with the input closed, its answer is the unasked default. */
  lemma EndOfInputIsNoAnswer(st: Input, q: Question, parse: string -> Option<real>)
    ensures var (next, a) := Ask(st, q, parse);
            (next.closed ==> a == Unasked(q)) && (st.closed ==> next == st)
            && |next.rest| <= |st.rest|
  {
    LineConsumes(st);
    match q {
      case ChooseQ(n, def, skippable) => ChooseEnds(st, n, def, skippable);
      case AmountQ => AmountEnds(st, parse);
      case ConfirmQ(_) =>
      case DaemonQ(steps) => DaemonNeedsAnAnswer(st, steps);
    }
  }

  /** Every question that is put to an open input takes a line from it or finds its end. */
  lemma EveryQuestionProgresses(st: Input, q: Question, parse: string -> Option<real>)
    requires !st.closed && (q.DaemonQ? ==> WantsOne(q.steps))
    ensures var next := Ask(st, q, parse).0;
            |next.rest| + (if next.closed then 0 else 1) < |st.rest| + 1
  {
    LineConsumes(st);
    match q {
      case ChooseQ(n, def, skippable) => ChooseEnds(st, n, def, skippable);
      case AmountQ => AmountEnds(st, parse);
      case ConfirmQ(_) =>
      case DaemonQ(steps) => DaemonNeedsAnAnswer(st, steps);
    }
  }

  /**
    Silence never says yes, over any sequence of questions: if the input has
    ended by the time question `i` is answered, then it and every later question get the unasked
    default, so nothing is confirmed and the daemon is not installed.
  */
  lemma {:induction false} NoConsentAfterTheEnd(st: Input, qs: seq<Question>, parse: string -> Option<real>, i: nat, j: nat)
    requires i <= j < |qs|
    requires AskAll(st, qs[..i + 1], parse).0.closed
    ensures |AskAll(st, qs, parse).1| == |qs|
    ensures AskAll(st, qs, parse).1[j] == Unasked(qs[j])
    decreases qs
  {
    hide Ask, Unasked;
    var next := Ask(st, qs[0], parse).0;
    EndOfInputIsNoAnswer(st, qs[0], parse);
    AnswersEach(next, qs[1..], parse);
    var first := qs[..i + 1];
    assert first[1..] == qs[1..][..i];
    if i == 0 {
      assert AskAll(next, first[1..], parse).0 == next;
      if j > 0 {
        ClosedStaysClosed(next, qs[1..], parse, j - 1);
      }
    } else {
      assert first[0] == qs[0] && first[1..] == qs[1..][..i - 1 + 1];
      NoConsentAfterTheEnd(next, qs[1..], parse, i - 1, j - 1);
    }
  }

  lemma {:induction false} AnswersEach(st: Input, qs: seq<Question>, parse: string -> Option<real>)
    ensures |AskAll(st, qs, parse).1| == |qs|
    decreases qs
  {
    hide Ask;
    if qs != [] {
      AnswersEach(Ask(st, qs[0], parse).0, qs[1..], parse);
    }
  }

  lemma {:induction false} ClosedStaysClosed(st: Input, qs: seq<Question>, parse: string -> Option<real>, j: nat)
    requires st.closed && j < |qs|
    ensures |AskAll(st, qs, parse).1| == |qs| && AskAll(st, qs, parse).1[j] == Unasked(qs[j])
    decreases qs
  {
    hide Ask, Unasked;
    EndOfInputIsNoAnswer(st, qs[0], parse);
    AnswersEach(st, qs[1..], parse);
    if j > 0 {
      ClosedStaysClosed(st, qs[1..], parse, j - 1);
    }
  }

  // ----- what was typed ----------------------------------------------------

  /** Blanks within a line. */
  predicate Blank(s: string) { forall i | 0 <= i < |s| :: IsSpace(s[i]) && s[i] != '\n' }

  /** What is typed between them: nothing, or text on one line that neither starts nor ends in a blank. */
  predicate Trimmed(s: string) {
    s == "" || (!IsSpace(s[0]) && !IsSpace(s[|s| - 1]) && forall i | 0 <= i < |s| :: s[i] != '\n')
  }

  lemma {:induction false} LineEndFinds(line: string, rest: string)
    requires forall i | 0 <= i < |line| :: line[i] != '\n'
    ensures LineEnd(line + "\n" + rest) == |line| + 1 && LineEnd(line) == |line|
  {
    var s := line + "\n" + rest;
    if line == "" {
      assert s[0] == '\n';
    } else {
      assert s[0] == line[0] && s[1..] == line[1..] + "\n" + rest;
      LineEndFinds(line[1..], rest);
    }
  }

  lemma {:induction false} TrimLeftTakes(before: string, s: string)
    requires (forall i | 0 <= i < |before| :: IsSpace(before[i])) && (s == "" || !IsSpace(s[0]))
    ensures TrimLeft(before + s) == s
  {
    if before == "" {
      assert before + s == s;
    } else {
      assert (before + s)[0] == before[0] && (before + s)[1..] == before[1..] + s;
      TrimLeftTakes(before[1..], s);
    }
  }

  lemma {:induction false} TrimRightTakes(s: string, after: string)
    requires (forall i | 0 <= i < |after| :: IsSpace(after[i])) && (s == "" || !IsSpace(s[|s| - 1]))
    ensures TrimRight(s + after) == s
  {
    if after == "" {
      assert s + after == s;
    } else {
      var n := |after| - 1;
      assert (s + after)[|s + after| - 1] == after[n] && (s + after)[..|s + after| - 1] == s + after[..n];
      TrimRightTakes(s, after[..n]);
    }
  }

  lemma TrimTakes(before: string, text: string, after: string)
    requires (forall i | 0 <= i < |before| :: IsSpace(before[i])) && forall i | 0 <= i < |after| :: IsSpace(after[i])
    requires text == "" || (!IsSpace(text[0]) && !IsSpace(text[|text| - 1]))
    ensures Trim(before + text + after) == text
  {
    hide IsSpace;
    if text == "" {
      var blanks := before + after;
      assert before + text + after == blanks + "";
      TrimLeftTakes(blanks, "");
    } else {
      assert before + text + after == before + (text + after);
      TrimLeftTakes(before, text + after);
      TrimRightTakes(text, after);
    }
  }

  /** A line typed to an open input is read whole, and what is around the text is dropped. */
  lemma LineReads(before: string, text: string, after: string, rest: string)
    requires Blank(before) && Trimmed(text) && Blank(after)
    ensures Line(Input(before + text + after + "\n" + rest, false)) == (Input(rest, false), Some(text))
  {
    hide TrimLeft, TrimRight, LineEnd;
    var line := before + text + after;
    LineEndFinds(line, rest);
    assert IsSpace('\n');
    TrimTakes(before, text, after + "\n");
    var s := line + "\n" + rest;
    assert before + text + (after + "\n") == line + "\n" == s[..|line| + 1] && s[|line| + 1..] == rest;
  }

  /** The last line, without a newline, is an answer if it says anything, and the end of input otherwise. */
  lemma LastLineReads(before: string, text: string, after: string)
    requires Blank(before) && Trimmed(text) && Blank(after)
    ensures Line(Input(before + text + after, false)) == if text == "" then (Input("", true), None) else (Input("", false), Some(text))
  {
    hide TrimLeft, TrimRight, LineEnd;
    var line := before + text + after;
    LineEndFinds(line, "");
    TrimTakes(before, text, after);
    assert line[..|line|] == line && line[|line|..] == "";
    assert forall i | 0 <= i < |line| :: line[i] != '\n';
  }

  /** The word y or yes, each letter in either case. */
  predicate Yes(word: string) {
    (|word| == 1 && word[0] in "yY") || (|word| == 3 && word[0] in "yY" && word[1] in "eE" && word[2] in "sS")
  }

  lemma YesExactly(word: string)
    ensures word != "" ==> (SaysYes(word, true) <==> Yes(word)) && (SaysYes(word, false) <==> Yes(word))
    ensures SaysYes("", true) && !SaysYes("", false)
  {
    assert |"y"| == 1 && |"yes"| == 3;
    if |word| == 1 {
      assert Lower(word) == "y" <==> Lower(word)[0] == 'y';
    }
    if |word| == 3 {
      assert Lower(word) == "yes" <==> Lower(word)[0] == 'y' && Lower(word)[1] == 'e' && Lower(word)[2] == 's';
    }
  }

  /**
    `confirm` over the text typed: y and yes in any case are yes, a blank line is the default, and
    any other line is no. One line is read; at the end of input it is no without an answer.
  */
  lemma ConfirmReads(before: string, text: string, after: string, rest: string, def: bool)
    requires Blank(before) && Trimmed(text) && Blank(after)
    ensures Confirm(Input(before + text + after + "\n" + rest, false), def) == (Input(rest, false), if text == "" then def else Yes(text))
    ensures Confirm(Input(before + text + after, false), def) == if text == "" then (Input("", true), false) else (Input("", false), Yes(text))
  {
    hide Line, SaysYes, Yes;
    LineReads(before, text, after, rest);
    LastLineReads(before, text, after);
    YesExactly(text);
  }

  /**
    The daemon is installed, once, exactly when a step asks for it by hand and the line typed is yes or
    blank; nothing is read when none does.
  */
  lemma DaemonReads(before: string, text: string, after: string, rest: string, steps: seq<SetupStep>)
    requires Blank(before) && Trimmed(text) && Blank(after)
    ensures var typed := Input(before + text + after + "\n" + rest, false);
            Daemon(typed, steps)
            == if exists s <- steps :: s.name == "daemon unit" && s.manual
               then (Input(rest, false), if text == "" || Yes(text) then 1 else 0) else (typed, 0)
  {
    hide Line, SaysYes, Yes;
    var typed := Input(before + text + after + "\n" + rest, false);
    LineReads(before, text, after, rest);
    YesExactly(text);
    DaemonNeedsAnAnswer(typed, steps);
    assert WantsOne(steps) <==> exists s <- steps :: s.name == "daemon unit" && s.manual;
  }

  /** `choose` over the text typed: a number in range is that option, a blank line the default, and any other line is asked again. */
  lemma ChooseReads(before: string, text: string, after: string, rest: string, n: nat, def: int, skippable: bool)
    requires Blank(before) && Trimmed(text) && Blank(after)
    ensures Choose(Input(before + text + after + "\n" + rest, false), n, def, skippable)
            == if text == "" then (Input(rest, false), if skippable then -1 else def)
               else match Atoi(text)
                    case Some(k) => if 1 <= k <= n then (Input(rest, false), k - 1) else Choose(Input(rest, false), n, def, skippable)
                    case None => Choose(Input(rest, false), n, def, skippable)
  {
    hide Line, Atoi;
    LineReads(before, text, after, rest);
  }

  /** `amount` over the text typed: a dollar sign in front is dropped and a comma is a point. */
  lemma AmountReads(before: string, text: string, after: string, rest: string, parse: string -> Option<real>)
    requires Blank(before) && Trimmed(text) && Blank(after)
    ensures var figure := if text != "" && text[0] == '$' then text[1..] else text;
            var points := seq(|figure|, i requires 0 <= i < |figure| => if figure[i] == ',' then '.' else figure[i]);
            Amount(Input(before + text + after + "\n" + rest, false), parse)
            == if figure == "" then (Input(rest, false), 0.0)
               else match parse(points)
                    case Some(v) => if v > 0.0 then (Input(rest, false), v) else Amount(Input(rest, false), parse)
                    case None => Amount(Input(rest, false), parse)
  {
    hide Line, ReplaceAll;
    LineReads(before, text, after, rest);
    var figure := if text != "" && text[0] == '$' then text[1..] else text;
    CommasArePoints(figure);
  }

  lemma {:induction false} CommasArePoints(s: string)
    ensures ReplaceAll(s, ",", ".") == seq(|s|, i requires 0 <= i < |s| => if s[i] == ',' then '.' else s[i])
  {
    if s != "" {
      assert s[..1] == [s[0]];
      CommasArePoints(s[1..]);
    }
  }
}
