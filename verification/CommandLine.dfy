/**
  One-string command lines: the quoting printer `shellQuote` and the tokenizer
  `splitCommandLine` that has to read its output back (internal/cli/hooks_settings.go),
  next to a reader for the two POSIX quoting rules the printer relies on.
*/
module CommandLine {
  import opened Basics
  import opened Text

  const QUOTE := '\''
  const ESCAPED_QUOTE := "'\\''"

  predicate IsBlank(c: char) { c == ' ' || c == '\t' }

  /** The characters that make `shellQuote` quote its argument. */
  predicate NeedsQuoting(c: char) { IsBlank(c) || c == '"' || c == QUOTE }

  /** A token the tokenizer passes through unchanged. */
  predicate PlainToken(s: string) {
    s != "" && QUOTE !in s && forall c <- s :: !IsBlank(c)
  }

  predicate PlainTokens(args: seq<string>) {
    forall i | 0 <= i < |args| :: PlainToken(args[i])
  }

  function ShellQuote(s: string): string {
    if forall c <- s :: !NeedsQuoting(c) then s
    else [QUOTE] + ReplaceAll(s, [QUOTE], ESCAPED_QUOTE) + [QUOTE]
  }

  /** The one-string invocation Codex and Cursor entries carry. */
  function CommandString(exe: string, args: seq<string>): string {
    Join([ShellQuote(exe)] + args, ' ')
  }

  // ----- splitCommandLine --------------------------------------------------

  /** The loop state of `splitCommandLine`. */
  datatype Lexer = Lexer(out: seq<string>, cur: string, quoted: bool, started: bool) {
    function Flush(): Lexer {
      if started then Lexer(out + [cur], "", quoted, false) else this
    }

    function Feed(c: char): Lexer {
      if c == QUOTE then this.(quoted := !quoted, started := true)
      else if !quoted && IsBlank(c) then Flush()
      else this.(cur := cur + [c], started := true)
    }
  }

  const START := Lexer([], "", false, false)

  function FeedAll(l: Lexer, s: string): Lexer
    decreases s
  {
    if s == "" then l else FeedAll(l.Feed(s[0]), s[1..])
  }

  function Tokens(s: string): seq<string> { FeedAll(START, s).Flush().out }

  /** `commandVerb`: the second token, if there are two. */
  function CommandVerb(cmd: string): string {
    if |Tokens(cmd)| < 2 then "" else Tokens(cmd)[1]
  }

  method SplitCommandLine(s: string) returns (out: seq<string>)
    ensures out == Tokens(s)
  {
    out := [];
    var cur, quoted, started := "", false, false;
    for i := 0 to |s|
      invariant FeedAll(Lexer(out, cur, quoted, started), s[i..]) == FeedAll(START, s)
    {
      var r := s[i];
      assert s[i..][0] == r && s[i..][1..] == s[i + 1..];
      if r == QUOTE {
        quoted, started := !quoted, true;
      } else if !quoted && IsBlank(r) {
        if started {
          out, cur, started := out + [cur], "", false;
        }
      } else {
        cur, started := cur + [r], true;
      }
    }
    if started {
      out := out + [cur];
    }
  }

  lemma {:induction false} FeedAppend(l: Lexer, a: string, b: string)
    ensures FeedAll(l, a + b) == FeedAll(FeedAll(l, a), b)
    decreases a
  {
    if a == "" {
      assert a + b == b;
    } else {
      assert (a + b)[0] == a[0] && (a + b)[1..] == a[1..] + b;
      FeedAppend(l.Feed(a[0]), a[1..], b);
    }
  }

  /** Text without quotes, read where no blank in it can end a token. */
  lemma {:induction false} FeedText(l: Lexer, s: string)
    requires QUOTE !in s
    requires l.quoted || forall c <- s :: !IsBlank(c)
    ensures FeedAll(l, s) == l.(cur := l.cur + s, started := l.started || s != "")
    decreases s
  {
    if s == "" {
      assert l.cur + s == l.cur;
    } else {
      assert s[0] in s;
      FeedText(l.Feed(s[0]), s[1..]);
      assert l.cur + [s[0]] + s[1..] == l.cur + s;
    }
  }

  lemma {:induction false} FeedArgs(l: Lexer, args: seq<string>)
    requires l.started && !l.quoted
    requires PlainTokens(args)
    ensures FeedAll(l, Prefixed(args, ' ')).Flush().out == l.out + [l.cur] + args
    decreases args
  {
    if args == [] {
      assert l.out + [l.cur] + args == l.out + [l.cur];
    } else {
      var word := [' '] + args[0];
      FeedAppend(l, word, Prefixed(args[1..], ' '));
      assert word[1..] == args[0];
      FeedText(l.Flush(), args[0]);
      var next := FeedAll(l, word);
      assert next == Lexer(l.out + [l.cur], args[0], false, true);
      FeedArgs(next, args[1..]);
      assert l.out + [l.cur] + [args[0]] + args[1..] == l.out + [l.cur] + args;
    }
  }

  /** Without single quotes, `shellQuote` only ever wraps. */
  lemma {:induction false} ReplaceNothing(s: string)
    requires QUOTE !in s
    ensures ReplaceAll(s, [QUOTE], ESCAPED_QUOTE) == s
  {
    if s != "" {
      assert s[..1] == [s[0]];
      ReplaceNothing(s[1..]);
    }
  }

  lemma FeedShellQuote(exe: string)
    requires exe != "" && QUOTE !in exe
    ensures FeedAll(START, ShellQuote(exe)) == Lexer([], exe, false, true)
  {
    if forall c <- exe :: !NeedsQuoting(c) {
      FeedText(START, exe);
    } else {
      ReplaceNothing(exe);
      FeedText(START.Feed(QUOTE), exe);
      assert ([QUOTE] + exe)[1..] == exe;
      FeedAppend(START, [QUOTE] + exe, [QUOTE]);
    }
  }

  lemma {:induction false} TokensHoldNoQuote(l: Lexer, s: string)
    requires QUOTE !in l.cur && forall t <- l.out :: QUOTE !in t
    ensures QUOTE !in FeedAll(l, s).cur && forall t <- FeedAll(l, s).out :: QUOTE !in t
    decreases s
  {
    if s != "" {
      TokensHoldNoQuote(l.Feed(s[0]), s[1..]);
    }
  }

  /**
    The round trip the recognition of Codex and Cursor entries rests on, with its
    exact domain: the tokenizer gives back the binary path and the arguments when,
    and only when, the path is non-empty and free of single quotes.
  */
  lemma SplitReadsCommandString(exe: string, args: seq<string>)
    requires PlainTokens(args)
    ensures Tokens(CommandString(exe, args)) == [exe] + args <==> exe != "" && QUOTE !in exe
  {
    JoinIsPrefixed(ShellQuote(exe), args, ' ');
    FeedAppend(START, ShellQuote(exe), Prefixed(args, ' '));
    if exe != "" && QUOTE !in exe {
      FeedShellQuote(exe);
      FeedArgs(Lexer([], exe, false, true), args);
      assert [] + [exe] + args == [exe] + args;
    } else if exe == "" {
      EmptyPathIsLost(args);
    } else {
      TokensHoldNoQuote(START, CommandString(exe, args));
      assert ([exe] + args)[0] == exe;
    }
  }

  lemma EmptyPathIsLost(args: seq<string>)
    requires PlainTokens(args)
    ensures FeedAll(START, Prefixed(args, ' ')).Flush().out == args
  {
    if args != [] {
      var word := [' '] + args[0];
      FeedAppend(START, word, Prefixed(args[1..], ' '));
      assert word[1..] == args[0];
      FeedText(START, args[0]);
      assert "" + args[0] == args[0];
      FeedArgs(Lexer([], args[0], false, true), args[1..]);
      assert [] + [args[0]] + args[1..] == args;
    }
  }

  function Quotes(s: string): nat {
    if s == "" then 0 else (if s[0] == QUOTE then 1 else 0) + Quotes(s[1..])
  }

  lemma {:induction false} NoQuotes(s: string)
    ensures Quotes(s) == 0 <==> QUOTE !in s
  {
    if s != "" {
      NoQuotes(s[1..]);
    }
  }

  /**
    The pieces the tokenizer makes of a quoted path: a single quote in it switches quoting off or
    on and leaves a backslash, and where quoting is off blanks split it. The last piece is unfinished.
  */
  function Pieces(s: string, quoted: bool, started: bool, cur: string): (pieces: seq<string>)
    ensures pieces != []
    decreases s
  {
    if s == "" then [cur]
    else if s[0] == QUOTE then Pieces(s[1..], !quoted, true, cur + "\\")
    else if !quoted && IsBlank(s[0]) then (if started then [cur] + Pieces(s[1..], false, false, "") else Pieces(s[1..], false, false, cur))
    else Pieces(s[1..], quoted, true, cur + [s[0]])
  }

  function PathPieces(exe: string): seq<string> { Pieces(exe, true, true, "") }

  lemma {:induction false} FeedEscapedPath(l: Lexer, s: string)
    ensures var r := FeedAll(l, ReplaceAll(s, [QUOTE], ESCAPED_QUOTE));
            r.out + [r.cur] == l.out + Pieces(s, l.quoted, l.started, l.cur)
            && r.quoted == (l.quoted != (Quotes(s) % 2 == 1))
    decreases s
  {
    if s != "" {
      assert s[..1] == [s[0]];
      var head := if s[0] == QUOTE then ESCAPED_QUOTE else [s[0]];
      FeedAppend(l, head, ReplaceAll(s[1..], [QUOTE], ESCAPED_QUOTE));
      if s[0] == QUOTE {
        FeedEscapedQuote(l);
      } else {
        FeedOne(l, s[0]);
      }
      FeedEscapedPath(FeedAll(l, head), s[1..]);
    }
  }

  lemma FeedOne(l: Lexer, c: char)
    ensures FeedAll(l, [c]) == l.Feed(c)
  {
    assert [c][1..] == "";
  }

  lemma FeedEscapedQuote(l: Lexer)
    ensures FeedAll(l, ESCAPED_QUOTE) == l.(cur := l.cur + "\\", quoted := !l.quoted, started := true)
  {
    FeedAppend(l, "'\\", "''");
    FeedPair(l, QUOTE, '\\');
    FeedPair(FeedAll(l, "'\\"), QUOTE, QUOTE);
  }

  lemma FeedPair(l: Lexer, a: char, b: char)
    ensures FeedAll(l, [a, b]) == l.Feed(a).Feed(b)
  {
    assert [a, b][1..] == [b];
    FeedOne(l.Feed(a), b);
  }

  lemma {:induction false} PrefixedHoldsNoQuote(args: seq<string>)
    requires PlainTokens(args)
    ensures QUOTE !in Prefixed(args, ' ')
  {
    if args != [] {
      PrefixedHoldsNoQuote(args[1..]);
    }
  }

  /** Every blank follows an even number of single quotes, so none of them splits the path. */
  predicate BlanksStayQuoted(s: string) {
    forall i | 0 <= i < |s| && IsBlank(s[i]) :: Quotes(s[..i]) % 2 == 0
  }

  /** A path the tokenizer reads as one token and that leaves no quote open. */
  predicate ReadsAsOneToken(exe: string) {
    exe != "" && Quotes(exe) % 2 == 0 && BlanksStayQuoted(exe)
  }

  /**
    A path that breaks up and whose own second piece then stands where the verb is looked for:
    another piece follows it, or no quote is left open to run on into the arguments.
  */
  predicate HoldsVerbItself(exe: string, verb: string) {
    var pieces := PathPieces(exe);
    |pieces| > 1 && pieces[1] == verb && (|pieces| == 2 ==> Quotes(exe) % 2 == 0)
  }

  lemma {:induction false} OnePieceExactly(s: string, quoted: bool, cur: string)
    ensures |Pieces(s, quoted, true, cur)| == 1
            <==> forall i | 0 <= i < |s| && IsBlank(s[i]) :: (Quotes(s[..i]) % 2 == 0) == quoted
    decreases s
  {
    if s != "" {
      var q := if s[0] == QUOTE then !quoted else quoted;
      forall i | 0 < i < |s|
        ensures (Quotes(s[..i]) % 2 == 0) == quoted <==> (Quotes(s[1..][..i - 1]) % 2 == 0) == q
      {
        assert s[..i][1..] == s[1..][..i - 1];
      }
      assert forall i | 0 <= i < |s[1..]| :: s[1..][i] == s[i + 1];
      OnePieceExactly(s[1..], q, cur + [if s[0] == QUOTE then '\\' else s[0]]);
      if !quoted && IsBlank(s[0]) {
        assert Quotes(s[..0]) == 0;
      } else {
        OnePieceShift(s, quoted, q);
      }
    }
  }

  lemma OnePieceShift(s: string, quoted: bool, q: bool)
    requires s != "" && (quoted || !IsBlank(s[0]))
    requires forall i | 0 < i < |s| :: (Quotes(s[..i]) % 2 == 0) == quoted <==> (Quotes(s[1..][..i - 1]) % 2 == 0) == q
    ensures (forall i | 0 <= i < |s| && IsBlank(s[i]) :: (Quotes(s[..i]) % 2 == 0) == quoted)
            <==> forall i | 0 <= i < |s[1..]| && IsBlank(s[1..][i]) :: (Quotes(s[1..][..i]) % 2 == 0) == q
  {
    assert Quotes(s[..0]) == 0;
    if forall i | 0 <= i < |s| && IsBlank(s[i]) :: (Quotes(s[..i]) % 2 == 0) == quoted {
      forall i | 0 <= i < |s[1..]| && IsBlank(s[1..][i])
        ensures (Quotes(s[1..][..i]) % 2 == 0) == q
      {
        assert IsBlank(s[i + 1]) && s[1..][..i + 1 - 1] == s[1..][..i];
      }
    }
    if forall i | 0 <= i < |s[1..]| && IsBlank(s[1..][i]) :: (Quotes(s[1..][..i]) % 2 == 0) == q {
      forall i | 0 <= i < |s| && IsBlank(s[i])
        ensures (Quotes(s[..i]) % 2 == 0) == quoted
      {
        if i > 0 {
          assert IsBlank(s[1..][i - 1]);
        }
      }
    }
  }

  /** Where the tokenizer stands after the printed path. */
  lemma AfterPath(exe: string)
    requires exe != ""
    ensures var l := FeedAll(START, ShellQuote(exe));
            l.out + [l.cur] == PathPieces(exe) && l.started && l.quoted == (Quotes(exe) % 2 == 1)
  {
    if forall c <- exe :: !NeedsQuoting(c) {
      NoQuotes(exe);
      FeedText(START, exe);
      WholePiece(exe, "");
      assert "" + exe == exe;
    } else {
      var body := ReplaceAll(exe, [QUOTE], ESCAPED_QUOTE);
      FeedAppend(START, [QUOTE] + body, [QUOTE]);
      assert ([QUOTE] + body)[1..] == body;
      FeedEscapedPath(START.Feed(QUOTE), exe);
      FeedOne(FeedAll(START.Feed(QUOTE), body), QUOTE);
    }
  }

  lemma {:induction false} WholePiece(s: string, cur: string)
    requires QUOTE !in s
    ensures Pieces(s, true, true, cur) == [cur + s]
    decreases s
  {
    if s == "" {
      assert cur + s == cur;
    } else {
      WholePiece(s[1..], cur + [s[0]]);
      assert cur + [s[0]] + s[1..] == cur + s;
    }
  }

  /**
    Exactly which paths keep their verb readable: those that read as one token, and those that
    break up and hold the verb as their own second piece, finished by another piece or by no quote
    being left open. A quote left open swallows the verb that follows.
  */
  lemma VerbReadableExactly(exe: string, args: seq<string>)
    requires args != [] && PlainTokens(args) && (|args| > 1 ==> args[1] != args[0])
    ensures CommandVerb(CommandString(exe, args)) == args[0] <==> ReadsAsOneToken(exe) || HoldsVerbItself(exe, args[0])
  {
    JoinIsPrefixed(ShellQuote(exe), args, ' ');
    if exe == "" {
      EmptyPathIsLost(args);
      assert "" + Prefixed(args, ' ') == Prefixed(args, ' ');
    } else {
      FeedAppend(START, ShellQuote(exe), Prefixed(args, ' '));
      AfterPath(exe);
      OnePieceExactly(exe, true, "");
      var path, pieces := FeedAll(START, ShellQuote(exe)), PathPieces(exe);
      if path.quoted {
        PrefixedHoldsNoQuote(args);
        FeedText(path, Prefixed(args, ' '));
        var swallowed := path.cur + Prefixed(args, ' ');
        assert Tokens(CommandString(exe, args)) == path.out + [swallowed];
        assert |swallowed| > |args[0]|;
        assert forall i | 0 <= i < |path.out| :: path.out[i] == pieces[i];
      } else {
        FeedArgs(path, args);
        assert Tokens(CommandString(exe, args)) == pieces + args;
      }
    }
  }

  function Unquote(s: string): (r: string)
    ensures |r| == |s|
  {
    seq(|s|, i requires 0 <= i < |s| => if s[i] == QUOTE then '\\' else s[i])
  }

  lemma WholeStretch(read: string, s: string, verb: string)
    requires '\\' !in verb && Unquote(read) == verb
    ensures Contains(read + s, verb)
  {
    assert forall i | 0 <= i < |read| :: verb[i] in verb && read[i] == verb[i];
    assert read == verb;
    ContainsInside("", verb, s);
    assert "" + verb + s == read + s;
  }

  lemma LaterStretch(before: string, s: string, verb: string)
    requires Contains(s, verb)
    ensures Contains(before + s, verb)
  {
    ContainsWiden(before, s, "", verb);
    assert before + s + "" == before + s;
  }

  /** Every piece is a stretch of the path, with its single quotes turned into backslashes. */
  lemma {:induction false} PiecesAreStretches(read: string, s: string, quoted: bool, started: bool, verb: string)
    requires '\\' !in verb && (!started ==> read == "")
    requires verb in Pieces(s, quoted, started, Unquote(read))
    ensures Contains(read + s, verb)
    decreases s
  {
    hide Contains, Unquote;
    var cur := Unquote(read);
    if cur == verb {
      WholeStretch(read, s, verb);
    } else if s != "" {
      if !quoted && IsBlank(s[0]) {
        NothingUnquoted();
        assert verb in Pieces(s[1..], false, false, "");
        PiecesAreStretches("", s[1..], false, false, verb);
        assert "" + s[1..] == s[1..] && read + [s[0]] + s[1..] == read + s;
        LaterStretch(read + [s[0]], s[1..], verb);
      } else {
        UnquoteGrows(read, s[0]);
        PiecesAreStretches(read + [s[0]], s[1..], if s[0] == QUOTE then !quoted else quoted, true, verb);
        assert read + [s[0]] + s[1..] == read + s;
      }
    }
  }

  lemma NothingUnquoted()
    ensures Unquote("") == ""
  {
  }

  lemma UnquoteGrows(s: string, c: char)
    ensures Unquote(s + [c]) == Unquote(s) + [if c == QUOTE then '\\' else c]
  {
  }

  /** A path that reads as one token keeps its verb readable whatever the arguments repeat. */
  lemma OneTokenReadsVerb(exe: string, args: seq<string>)
    requires args != [] && PlainTokens(args) && ReadsAsOneToken(exe)
    ensures CommandString(exe, args) != "" && CommandVerb(CommandString(exe, args)) == args[0]
  {
    JoinIsPrefixed(ShellQuote(exe), args, ' ');
    FeedAppend(START, ShellQuote(exe), Prefixed(args, ' '));
    AfterPath(exe);
    OnePieceExactly(exe, true, "");
    FeedArgs(FeedAll(START, ShellQuote(exe)), args);
    assert |PathPieces(exe)| == 1;
  }

  /** A path without the verb in it has its verb read exactly when it reads as one token. */
  lemma OtherPathsReadableExactly(exe: string, args: seq<string>)
    requires args != [] && PlainTokens(args) && (|args| > 1 ==> args[1] != args[0])
    requires '\\' !in args[0] && !Contains(exe, args[0])
    ensures CommandVerb(CommandString(exe, args)) == args[0] <==> ReadsAsOneToken(exe)
  {
    VerbReadableExactly(exe, args);
    NothingUnquoted();
    assert "" + exe == exe;
    if HoldsVerbItself(exe, args[0]) {
      PiecesAreStretches("", exe, true, true, args[0]);
    }
  }

  lemma {:induction false} PiecesOfText(text: string, s: string, quoted: bool, started: bool, cur: string)
    requires QUOTE !in text && (quoted || forall c <- text :: !IsBlank(c))
    ensures Pieces(text + s, quoted, started, cur) == Pieces(s, quoted, started || text != "", cur + text)
    decreases text
  {
    if text == "" {
      assert text + s == s && cur + text == cur;
    } else {
      assert text[0] in text;
      assert (text + s)[0] == text[0] && (text + s)[1..] == text[1..] + s;
      PiecesOfText(text[1..], s, quoted, true, cur + [text[0]]);
      assert cur + [text[0]] + text[1..] == cur + text;
    }
  }

  /** Such paths exist for every verb: a quote, a blank, the verb and a blank after anything without quotes. */
  lemma BrokenPathHoldsVerb(before: string, verb: string)
    requires QUOTE !in before && PlainToken(verb)
    ensures var exe := before + "' " + verb + " "; HoldsVerbItself(exe, verb) && !ReadsAsOneToken(exe)
  {
    var exe := before + "' " + verb + " ";
    assert exe == before + ("' " + (verb + " "));
    PiecesOfText(before, "' " + (verb + " "), true, true, "");
    assert ("' " + (verb + " "))[1..] == " " + (verb + " ") && (" " + (verb + " "))[1..] == verb + " ";
    PiecesOfText(verb, " ", false, false, "");
    assert "" + verb == verb && " "[1..] == "";
    assert PathPieces(exe) == ["" + before + "\\", verb, ""];
    OnePieceExactly(exe, true, "");
  }

  /** Without that last blank the quote is left open, and the verb is swallowed. */
  lemma BrokenPathSwallowsVerb(before: string, verb: string)
    requires QUOTE !in before && PlainToken(verb)
    ensures var exe := before + "' " + verb;
            |PathPieces(exe)| > 1 && PathPieces(exe)[1] == verb && !HoldsVerbItself(exe, verb) && !ReadsAsOneToken(exe)
  {
    var exe := before + "' " + verb;
    assert exe == before + ("' " + verb);
    PiecesOfText(before, "' " + verb, true, true, "");
    assert ("' " + verb)[1..] == " " + verb && (" " + verb)[1..] == verb == verb + "";
    PiecesOfText(verb, "", false, false, "");
    assert "" + verb == verb;
    assert PathPieces(exe) == ["" + before + "\\", verb];
    OnePieceExactly(exe, true, "");
    QuotesAppend(before, "' " + verb);
    NoQuotes(before);
    NoQuotes(" " + verb);
  }

  lemma {:induction false} QuotesAppend(a: string, b: string)
    ensures Quotes(a + b) == Quotes(a) + Quotes(b)
  {
    if a == "" {
      assert a + b == b;
    } else {
      assert (a + b)[0] == a[0] && (a + b)[1..] == a[1..] + b;
      QuotesAppend(a[1..], b);
    }
  }

  // ----- POSIX quoting -----------------------------------------------------

  /**
    The characters of POSIX.1-2017 Shell Command Language section 2.2 that are quoted wherever
    they stand, and the pattern characters, whose effect depends on the files there are.
  */
  predicate MustQuote(c: char) {
    c in "|&;<>()$`\\\"' \t\n*?["
  }

  /** A comment (section 2.3) or a tilde (section 2.6.1), at the start of a word. */
  predicate ActsFirst(c: char) { c == '#' || c == '~' }

  predicate Alpha(c: char) { 'a' <= c <= 'z' || 'A' <= c <= 'Z' || c == '_' }

  /** A name in the sense of section 2.10.2, which makes what follows an `=` an assignment. */
  predicate Name(s: string) {
    s != "" && Alpha(s[0]) && forall c <- s :: Alpha(c) || '0' <= c <= '9'
  }

  datatype Mode = Unquoted | Single | Escaped

  /**
    A reader for words made of unquoted plain characters, backslash escapes
    (section 2.2.1) and single-quoted runs (section 2.2.2), separated by blanks.
    Anything else the shell would act on where it stands stops it; `bare` is a word without
    quoting so far, which in the first place may turn out to be an assignment.
  */
  datatype Shell = Shell(out: seq<string>, cur: string, mode: Mode, started: bool, bare: bool) | Stopped {
    function Feed(c: char): Shell {
      if Stopped? then Stopped
      else match mode
        case Single =>
          if c == QUOTE then this.(mode := Unquoted) else this.(cur := cur + [c])
        case Escaped =>
          // A backslash before a newline is a line continuation: both vanish.
          if c == '\n' then this.(mode := Unquoted)
          else this.(cur := cur + [c], mode := Unquoted, started := true, bare := false)
        case Unquoted =>
          if c == QUOTE then this.(mode := Single, started := true, bare := false)
          else if c == '\\' then this.(mode := Escaped)
          else if IsBlank(c) then (if started then Shell(out + [cur], "", Unquoted, false, true) else this)
          else if MustQuote(c) || (!started && ActsFirst(c)) || (c == '=' && Assigns()) then Stopped
          else this.(cur := cur + [c], started := true)
    }

    predicate Assigns()
      requires Shell?
    {
      out == [] && bare && Name(cur)
    }
  }

  const PROMPT := Shell([], "", Unquoted, false, true)

  function ShellFeed(sh: Shell, s: string): Shell
    decreases s
  {
    if s == "" then sh else ShellFeed(sh.Feed(s[0]), s[1..])
  }

  /** The words a shell makes of a line, quotes removed. */
  function ShellWords(s: string): Option<seq<string>> {
    var sh := ShellFeed(PROMPT, s);
    if sh.Stopped? || sh.mode != Unquoted then None
    else if sh.started then Some(sh.out + [sh.cur]) else Some(sh.out)
  }

  /** A word the shell passes on as it is, wherever it stands but first. */
  predicate PlainArg(s: string) { s != "" && !ActsFirst(s[0]) && forall c <- s :: !MustQuote(c) }

  predicate Assignment(s: string) { exists i | 0 <= i < |s| :: s[i] == '=' && Name(s[..i]) }

  /** A word the shell takes for the command as it is. */
  predicate ShellPlain(s: string) { PlainArg(s) && !Assignment(s) }

  lemma {:induction false} ShellFeedAppend(sh: Shell, a: string, b: string)
    ensures ShellFeed(sh, a + b) == ShellFeed(ShellFeed(sh, a), b)
    decreases a
  {
    if a == "" {
      assert a + b == b;
    } else {
      assert (a + b)[0] == a[0] && (a + b)[1..] == a[1..] + b;
      ShellFeedAppend(sh.Feed(a[0]), a[1..], b);
    }
  }

  lemma {:induction false} ShellFeedPlain(sh: Shell, s: string)
    requires sh.Shell? && sh.mode == Unquoted && (sh.started || s == "" || !ActsFirst(s[0]))
    requires forall c <- s :: !MustQuote(c)
    requires sh.out == [] && sh.bare ==> forall i | 0 <= i < |s| && s[i] == '=' :: !Name(sh.cur + s[..i])
    ensures ShellFeed(sh, s) == sh.(cur := sh.cur + s, started := sh.started || s != "")
    decreases s
  {
    hide Name;
    if s == "" {
      assert sh.cur + s == sh.cur;
    } else {
      assert !MustQuote(s[0]);
      assert sh.cur + s[..0] == sh.cur;
      var next := sh.Feed(s[0]);
      assert next == sh.(cur := sh.cur + [s[0]], started := true);
      if sh.out == [] && sh.bare {
        forall i | 0 <= i < |s[1..]| && s[1..][i] == '='
          ensures !Name(next.cur + s[1..][..i])
        {
          assert s[i + 1] == '=' && next.cur + s[1..][..i] == sh.cur + s[..i + 1];
        }
      }
      ShellFeedPlain(next, s[1..]);
      assert sh.cur + [s[0]] + s[1..] == sh.cur + s;
    }
  }

  /** The printer's core: inside the outer quotes the shell reads back every character. */
  lemma {:induction false} ShellReadsEscaped(sh: Shell, s: string)
    requires sh.Shell? && sh.mode == Single && sh.started && !sh.bare
    ensures ShellFeed(sh, ReplaceAll(s, [QUOTE], ESCAPED_QUOTE)) == sh.(cur := sh.cur + s)
    decreases s
  {
    if s == "" {
      assert sh.cur + s == sh.cur;
    } else {
      assert s[..1] == [s[0]];
      var head := if s[0] == QUOTE then ESCAPED_QUOTE else [s[0]];
      ShellFeedAppend(sh, head, ReplaceAll(s[1..], [QUOTE], ESCAPED_QUOTE));
      ShellReadsOne(sh, s[0]);
      ShellReadsEscaped(sh.(cur := sh.cur + [s[0]]), s[1..]);
      assert sh.cur + [s[0]] + s[1..] == sh.cur + s;
    }
  }

  lemma ShellReadsOne(sh: Shell, c: char)
    requires sh.Shell? && sh.mode == Single && sh.started && !sh.bare
    ensures ShellFeed(sh, if c == QUOTE then ESCAPED_QUOTE else [c]) == sh.(cur := sh.cur + [c])
  {
    assert [c][1..] == "";
    ShellFeedAppend(sh, "'\\", "''");
    ShellFeedPair(sh, QUOTE, '\\');
    ShellFeedPair(ShellFeed(sh, "'\\"), QUOTE, QUOTE);
  }

  lemma ShellFeedOne(sh: Shell, c: char)
    ensures ShellFeed(sh, [c]) == sh.Feed(c)
  {
    assert [c][1..] == "";
  }

  lemma ShellFeedPair(sh: Shell, a: char, b: char)
    ensures ShellFeed(sh, [a, b]) == sh.Feed(a).Feed(b)
  {
    assert [a, b][1..] == [b];
    ShellFeedOne(sh.Feed(a), b);
  }

  lemma ShellReadsBarePath(s: string)
    requires ShellPlain(s)
    ensures ShellFeed(PROMPT, s) == Shell([], s, Unquoted, true, true)
  {
    hide MustQuote, Name, ActsFirst;
    assert forall i | 0 <= i < |s| :: "" + s[..i] == s[..i];
    ShellFeedPlain(PROMPT, s);
    assert "" + s == s;
  }

  lemma ShellReadsWrappedPath(s: string)
    ensures ShellFeed(PROMPT, [QUOTE] + ReplaceAll(s, [QUOTE], ESCAPED_QUOTE) + [QUOTE]) == Shell([], s, Unquoted, true, false)
  {
    hide ReplaceAll;
    var body := ReplaceAll(s, [QUOTE], ESCAPED_QUOTE);
    ShellFeedAppend(PROMPT, [QUOTE] + body, [QUOTE]);
    assert ([QUOTE] + body)[1..] == body;
    ShellReadsEscaped(PROMPT.Feed(QUOTE), s);
    assert "" + s == s;
    ShellFeedOne(Shell([], s, Single, true, false), QUOTE);
  }

  /** From a word boundary, the printed path is read back as one word in progress. */
  lemma ShellReadsPath(s: string)
    requires (exists c <- s :: NeedsQuoting(c)) || ShellPlain(s)
    ensures ShellFeed(PROMPT, ShellQuote(s)) == Shell([], s, Unquoted, true, forall c <- s :: !NeedsQuoting(c))
  {
    hide ShellPlain, NeedsQuoting;
    if exists c <- s :: NeedsQuoting(c) {
      ShellReadsWrappedPath(s);
    } else {
      ShellReadsBarePath(s);
    }
  }

  lemma {:induction false} ShellReadsArgs(sh: Shell, args: seq<string>)
    requires sh.Shell? && sh.mode == Unquoted && sh.started
    requires forall i | 0 <= i < |args| :: PlainArg(args[i])
    ensures var r := ShellFeed(sh, Prefixed(args, ' '));
            r.Shell? && r.mode == Unquoted && r.started && r.out + [r.cur] == sh.out + [sh.cur] + args
    decreases args
  {
    if args != [] {
      var word := [' '] + args[0];
      ShellFeedAppend(sh, word, Prefixed(args[1..], ' '));
      assert word[1..] == args[0];
      ShellFeedPlain(Shell(sh.out + [sh.cur], "", Unquoted, false, true), args[0]);
      assert "" + args[0] == args[0];
      ShellReadsArgs(Shell(sh.out + [sh.cur], args[0], Unquoted, true, true), args[1..]);
      assert sh.out + [sh.cur] + [args[0]] + args[1..] == sh.out + [sh.cur] + args;
    }
  }

  lemma {:induction false} StoppedStays(s: string)
    ensures ShellFeed(Stopped, s) == Stopped
  {
    if s != "" {
      StoppedStays(s[1..]);
    }
  }

  /** Where no quoting was asked for, every character the shell acts on costs the word a character. */
  lemma {:induction false} ShellMisreads(sh: Shell, s: string)
    requires sh.Shell? && sh.mode != Single
    requires forall c <- s :: !NeedsQuoting(c)
    ensures var r := ShellFeed(sh, s);
            r.Stopped? ||
            (r.out == sh.out && |r.cur| <= |sh.cur| + |s| &&
             (sh.mode == Unquoted && (exists c <- s :: MustQuote(c)) ==> |r.cur| < |sh.cur| + |s|))
    decreases s
  {
    if s != "" {
      assert s[0] in s;
      assert forall c <- s :: c == s[0] || c in s[1..];
      if sh.Feed(s[0]).Stopped? {
        StoppedStays(s[1..]);
      } else {
        ShellMisreads(sh.Feed(s[0]), s[1..]);
      }
    }
  }

  /** A word that would be an assignment stops the reader at its sign. */
  lemma AssignmentStops(s: string)
    requires PlainArg(s) && Assignment(s)
    ensures ShellFeed(PROMPT, s) == Stopped
  {
    hide ShellFeed, PlainArg, Name;
    var i := FirstAssignment(s);
    ShellReadsName(s, i);
    SignStops(s[..i], s[i..]);
    assert s == s[..i] + s[i..];
    ShellFeedAppend(PROMPT, s[..i], s[i..]);
  }

  lemma ShellReadsName(s: string, i: nat)
    requires PlainArg(s) && i < |s|
    requires forall j | 0 <= j < i && s[j] == '=' :: !Name(s[..j])
    ensures ShellFeed(PROMPT, s[..i]) == Shell([], s[..i], Unquoted, i > 0, true)
  {
    hide Name, MustQuote, ActsFirst;
    var before := s[..i];
    assert forall j | 0 <= j < |before| :: "" + before[..j] == s[..j] && before[j] == s[j];
    ShellFeedPlain(PROMPT, before);
    assert "" + before == before;
  }

  lemma SignStops(name: string, rest: string)
    requires Name(name) && rest != "" && rest[0] == '='
    ensures ShellFeed(Shell([], name, Unquoted, true, true), rest) == Stopped
  {
    hide Name;
    StoppedStays(rest[1..]);
  }

  lemma FirstAssignment(s: string) returns (i: nat)
    requires Assignment(s)
    ensures i < |s| && s[i] == '=' && Name(s[..i])
    ensures forall j | 0 <= j < i && s[j] == '=' :: !Name(s[..j])
  {
    var k :| 0 <= k < |s| && s[k] == '=' && Name(s[..k]);
    i := 0;
    while s[i] != '=' || !Name(s[..i])
      invariant i <= k
      invariant forall j | 0 <= j < i && s[j] == '=' :: !Name(s[..j])
      decreases k - i
    {
      i := i + 1;
    }
  }

  /**
    A shell reads the printed path back as exactly one word, the path itself,
    precisely when the path holds a blank or a quote (and so was quoted) or holds
    nothing the shell acts on where it stands. Other shell characters are printed bare.
  */
  lemma ShellReadsQuotedPathExactly(s: string)
    ensures ShellWords(ShellQuote(s)) == Some([s]) <==> (exists c <- s :: NeedsQuoting(c)) || ShellPlain(s)
  {
    if (exists c <- s :: NeedsQuoting(c)) || ShellPlain(s) {
      ShellReadsPath(s);
      assert [] + [s] == [s];
    } else if s != "" {
      if ActsFirst(s[0]) {
        StoppedStays(s[1..]);
      } else if PlainArg(s) {
        AssignmentStops(s);
      } else {
        ShellMisreads(PROMPT, s);
        var sh := ShellFeed(PROMPT, s);
        assert !sh.Stopped? ==> (sh.out + [sh.cur])[0] == sh.cur;
      }
    }
  }

  /** Any other shell character in a path without blanks and quotes is printed bare, and misread. */
  lemma BareCharacterIsMisread(before: string, c: char, after: string)
    requires (forall d <- before + after :: !NeedsQuoting(d)) && MustQuote(c) && !NeedsQuoting(c)
    ensures ShellQuote(before + [c] + after) == before + [c] + after
    ensures ShellWords(ShellQuote(before + [c] + after)) != Some([before + [c] + after])
  {
    hide MustQuote, NeedsQuoting;
    var s := before + [c] + after;
    assert s[|before|] == c && forall d <- s :: d == c || d in before + after;
    ShellReadsQuotedPathExactly(s);
  }

  /** One such path. */
  lemma AmpersandIsMisread()
    ensures var path := "/opt/R&D/tokenops"; ShellQuote(path) == path && ShellWords(ShellQuote(path)) != Some([path])
  {
    var before, after := "/opt/R", "D/tokenops";
    assert "/opt/R&D/tokenops" == before + ['&'] + after;
    BareCharacterIsMisread(before, '&', after);
  }

  /** The whole command string survives the shell, single quotes in the path included. */
  lemma ShellReadsCommandString(exe: string, args: seq<string>)
    requires (exists c <- exe :: NeedsQuoting(c)) || ShellPlain(exe)
    requires forall i | 0 <= i < |args| :: PlainArg(args[i])
    ensures ShellWords(CommandString(exe, args)) == Some([exe] + args)
  {
    JoinIsPrefixed(ShellQuote(exe), args, ' ');
    ShellFeedAppend(PROMPT, ShellQuote(exe), Prefixed(args, ' '));
    ShellReadsPath(exe);
    ShellReadsArgs(ShellFeed(PROMPT, ShellQuote(exe)), args);
    assert [] + [exe] + args == [exe] + args;
  }

  predicate Letters(s: string) { s != "" && forall c <- s :: 'a' <= c <= 'z' || c == '-' }

  lemma LettersArePlain(s: string)
    requires Letters(s)
    ensures PlainArg(s)
  {
    assert s[0] in s;
  }
}
