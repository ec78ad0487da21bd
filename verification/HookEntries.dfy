/**
  The hook entries TokenOps owns: the three shapes its installers write and the one
  predicate that recognises them all (internal/cli/hooks_settings.go, hooks_claude.go,
  hooks_codex.go, hooks_cursor.go).
*/
module HookEntries {
  import opened Basics
  import opened CommandLine
  import opened Json
  import opened Text

  /** `hookMarkers`: every verb TokenOps installs. */
  const HOOK_MARKERS := ["coach-hook", "read-guard", "route-guard", "boundary-guard"]

  const ALL_MARKERS: set<string> := set m | m in HOOK_MARKERS

  datatype Client = ClaudeCode | Codex | Cursor

  /** `isMarkerEntry`, branch by branch. */
  predicate IsMarkerEntry(entry: Fields, marker: string) {
    var t := StringField(entry, "type");
    if t != "" && t != "command" then false
    else
      var args := ListField(entry, "args");
      if args != [] then (if args[0].Str? then args[0].s else "") == marker
      else
        var cmd := StringField(entry, "command");
        cmd != "" && CommandVerb(cmd) == marker
  }

  /** The one marker an entry answers to, if it answers to any. */
  function MarkerOf(entry: Fields): Option<string> {
    var t := StringField(entry, "type");
    if t != "" && t != "command" then None
    else
      var args := ListField(entry, "args");
      if args != [] then Some(if args[0].Str? then args[0].s else "")
      else
        var cmd := StringField(entry, "command");
        if cmd == "" then None else Some(CommandVerb(cmd))
  }

  /** An entry carrying one of `markers`. */
  predicate Owned(j: Json, markers: set<string>) {
    j.Obj? && MarkerOf(j.fields).Some? && MarkerOf(j.fields).value in markers
  }

  lemma OwnedIsMarkerEntry(j: Json, marker: string)
    ensures Owned(j, {marker}) <==> j.Obj? && IsMarkerEntry(j.fields, marker)
  {
  }

  function Strings(args: seq<string>): (items: seq<Json>)
    ensures |items| == |args| && forall i | 0 <= i < |args| :: items[i] == Str(args[i])
  {
    seq(|args|, i requires 0 <= i < |args| => Str(args[i]))
  }

  function ClaudeEntry(exe: string, args: seq<string>): Fields {
    map["type" := Str("command"), "command" := Str(exe), "args" := Arr(Strings(args)), "timeout" := Number("10")]
  }

  function CodexEntry(exe: string, args: seq<string>, title: string): Fields {
    map["type" := Str("command"), "command" := Str(CommandString(exe, args)),
        "timeout" := Number("10"), "statusMessage" := Str(title)]
  }

  function CursorEntry(exe: string, args: seq<string>): Fields {
    map["command" := Str(CommandString(exe, args))]
  }

  function EntryFor(client: Client, exe: string, args: seq<string>, title: string): Fields {
    match client
    case ClaudeCode => ClaudeEntry(exe, args)
    case Codex => CodexEntry(exe, args, title)
    case Cursor => CursorEntry(exe, args)
  }

  /** Paths whose one-string entries stay readable; Claude Code's args array needs nothing of them. */
  predicate ReadablePath(client: Client, exe: string) {
    client.ClaudeCode? || ReadsAsOneToken(exe)
  }

  /**
    Every shape is recognised under its own verb and under no other, so a status
    walk reports it and an uninstall finds it.
  */
  lemma EveryShapeIsRecognised(client: Client, exe: string, args: seq<string>, title: string, marker: string)
    requires args != [] && PlainTokens(args) && ReadablePath(client, exe)
    ensures IsMarkerEntry(EntryFor(client, exe, args, title), marker) <==> marker == args[0]
    ensures MarkerOf(EntryFor(client, exe, args, title)) == Some(args[0])
  {
    if !client.ClaudeCode? {
      OneTokenReadsVerb(exe, args);
    }
  }

  /**
    Exactly when the two one-string shapes are recognised. An empty path, one that leaves a quote
    open and one that breaks up at a blank are written but not seen again by status or uninstall,
    unless the path's own second piece is the verb and is finished.
  */
  lemma OneStringShapesRecognisedExactly(client: Client, exe: string, args: seq<string>, title: string)
    requires !client.ClaudeCode?
    requires args != [] && PlainTokens(args) && (|args| > 1 ==> args[1] != args[0])
    ensures IsMarkerEntry(EntryFor(client, exe, args, title), args[0]) <==> ReadsAsOneToken(exe) || HoldsVerbItself(exe, args[0])
    ensures '\\' !in args[0] && !Contains(exe, args[0]) ==>
              (IsMarkerEntry(EntryFor(client, exe, args, title), args[0]) <==> ReadsAsOneToken(exe))
  {
    VerbReadableExactly(exe, args);
    if '\\' !in args[0] && !Contains(exe, args[0]) {
      OtherPathsReadableExactly(exe, args);
    }
  }

  /** A path whose entry for the verb is taken for ours. */
  predicate Recognised(client: Client, exe: string, verb: string) {
    client.ClaudeCode? || ReadsAsOneToken(exe) || HoldsVerbItself(exe, verb)
  }

  lemma RecognisedExactly(client: Client, exe: string, args: seq<string>, title: string)
    requires args != [] && PlainTokens(args) && (|args| > 1 ==> args[1] != args[0])
    ensures MarkerOf(EntryFor(client, exe, args, title)) == Some(args[0]) <==> Recognised(client, exe, args[0])
  {
    OwnedIsMarkerEntry(Obj(EntryFor(client, exe, args, title)), args[0]);
    if client.ClaudeCode? {
      EveryShapeIsRecognised(client, exe, args, title, args[0]);
    } else {
      OneStringShapesRecognisedExactly(client, exe, args, title);
    }
  }

  /**
    Which entries are ours, read off the JSON. One of another type never is; one with a non-empty
    args array goes by its first element, whatever its command; any other goes by its command's verb.
  */
  lemma RecognitionByFields(entry: Fields, marker: string)
    ensures (exists t: string :: t != "" && t != "command" && "type" in entry && entry["type"] == Str(t)) ==> !IsMarkerEntry(entry, marker)
    ensures var typed := "type" in entry && entry["type"].Str? && entry["type"].s != "";
            (typed ==> entry["type"] == Str("command")) ==>
              if "args" in entry && entry["args"].Arr? && entry["args"].items != [] then
                var first := entry["args"].items[0];
                IsMarkerEntry(entry, marker) <==> first == Str(marker) || (!first.Str? && marker == "")
              else if "command" in entry && entry["command"].Str? && entry["command"].s != "" then
                IsMarkerEntry(entry, marker) <==> CommandVerb(entry["command"].s) == marker
              else !IsMarkerEntry(entry, marker)
  {
  }

  // ----- what an entry runs ------------------------------------------------

  function Texts(items: seq<Json>): Option<seq<string>> {
    if items == [] then Some([])
    else
      var rest := Texts(items[1..]);
      if items[0].Str? && rest.Some? then Some([items[0].s] + rest.value) else None
  }

  /** The words a client runs: the command and its args array where there is one, else what a shell makes of the command. */
  function Runs(entry: Fields): Option<seq<string>> {
    if "command" !in entry || !entry["command"].Str? then None
    else if "args" !in entry then ShellWords(entry["command"].s)
    else if !entry["args"].Arr? then None
    else
      var rest := Texts(entry["args"].items);
      if rest.None? then None else Some([entry["command"].s] + rest.value)
  }

  lemma {:induction false} TextsOfStrings(args: seq<string>)
    ensures Texts(Strings(args)) == Some(args)
  {
    if args != [] {
      TextsOfStrings(args[1..]);
      assert Strings(args)[1..] == Strings(args[1..]) && [args[0]] + args[1..] == args;
    }
  }

  /** Paths a client's entry hands on as they are: any for an args array, else those a shell reads back. */
  predicate RunnablePath(client: Client, exe: string) {
    client.ClaudeCode? || (exists c <- exe :: NeedsQuoting(c)) || ShellPlain(exe)
  }

  /** Whatever the client, the entry written runs the binary with its arguments and nothing else. */
  lemma EntryRuns(client: Client, exe: string, args: seq<string>, title: string)
    requires RunnablePath(client, exe) && (client.ClaudeCode? || forall i | 0 <= i < |args| :: PlainArg(args[i]))
    ensures Runs(EntryFor(client, exe, args, title)) == Some([exe] + args)
  {
    hide ShellWords, CommandString, ShellPlain, NeedsQuoting;
    if client.ClaudeCode? {
      TextsOfStrings(args);
    } else {
      ShellReadsCommandString(exe, args);
    }
  }

  /** The three shapes, key by key. */
  lemma EntryShapes(exe: string, args: seq<string>, title: string)
    ensures var e := EntryFor(ClaudeCode, exe, args, title);
            e.Keys == {"type", "command", "args", "timeout"} && e["type"] == Str("command") && e["command"] == Str(exe)
            && e["timeout"] == Number("10") && e["args"].Arr? && Texts(e["args"].items) == Some(args)
    ensures var e := EntryFor(Codex, exe, args, title);
            e.Keys == {"type", "command", "timeout", "statusMessage"} && e["type"] == Str("command")
            && e["timeout"] == Number("10") && e["statusMessage"] == Str(title)
    ensures EntryFor(Cursor, exe, args, title).Keys == {"command"}
  {
    TextsOfStrings(args);
    hide Texts;
  }
}
