/**
  Cursor's flat hook lists (internal/cli/hooks_cursor.go). An install looks for its
  own entry by searching command strings for the verb, not by `isMarkerEntry`.
*/
module CursorHooks {
  import opened Basics
  import opened Text
  import opened Json
  import opened CommandLine
  import opened HookEntries
  import opened HookConfig
  import opened HookSpecs
  import opened HookMerge
  import opened HookHistory
  import opened HookRestore

  function CursorEvent(event: string): string {
    if event == "Stop" then "stop"
    else if event == "UserPromptSubmit" then "beforeSubmitPrompt"
    else event
  }

  function Command(elem: Json): string
    requires elem.Obj?
  {
    StringField(elem.fields, "command")
  }

  /** What `replaceMarkedEntry` takes for our own entry: any command mentioning the verb. */
  predicate Mentions(elem: Json, marker: string) { elem.Obj? && Contains(Command(elem), marker) }

  function ReplaceMarked(list: seq<Json>, entry: Fields, marker: string): (replaced: seq<Json>)
    ensures replaced != []
  {
    if list == [] then [Obj(entry)]
    else if Mentions(list[0], marker) then
      if Command(list[0]) == StringField(entry, "command") then list else [Obj(entry)] + list[1..]
    else [list[0]] + ReplaceMarked(list[1..], entry, marker)
  }

  method ReplaceMarkedEntry(list: seq<Json>, entry: Fields, marker: string) returns (replaced: seq<Json>, changed: bool)
    ensures replaced == ReplaceMarked(list, entry, marker)
    ensures changed == (replaced != list)
  {
    hide Contains, ReplaceMarked;
    for i := 0 to |list|
      invariant forall j | 0 <= j < i :: !Mentions(list[j], marker)
    {
      if !list[i].Obj? || !Contains(Command(list[i]), marker) {
        continue;
      }
      ReplaceAt(list, i, entry, marker);
      if Command(list[i]) == StringField(entry, "command") {
        return list, false;
      }
      replaced := list[i := Obj(entry)];
      assert replaced[i] != list[i];
      return replaced, true;
    }
    ReplaceAtEnd(list, entry, marker);
    return list + [Obj(entry)], true;
  }

  lemma ReplaceHead(list: seq<Json>, i: nat, entry: Fields, marker: string)
    requires i < |list|
    ensures ReplaceMarked(list[i..], entry, marker)
            == if !Mentions(list[i], marker) then [list[i]] + ReplaceMarked(list[i + 1..], entry, marker)
               else if Command(list[i]) == StringField(entry, "command") then list[i..]
               else [Obj(entry)] + list[i + 1..]
  {
    hide Contains;
    assert list[i..][0] == list[i] && list[i..][1..] == list[i + 1..];
  }

  lemma {:induction false} ReplaceSkips(list: seq<Json>, i: nat, entry: Fields, marker: string)
    requires i <= |list| && forall j | 0 <= j < i :: !Mentions(list[j], marker)
    ensures ReplaceMarked(list, entry, marker) == list[..i] + ReplaceMarked(list[i..], entry, marker)
    decreases i
  {
    hide Mentions, ReplaceMarked;
    if i == 0 {
      assert list[0..] == list;
    } else {
      ReplaceSkips(list, i - 1, entry, marker);
      ReplaceHead(list, i - 1, entry, marker);
      assert list[..i - 1] + [list[i - 1]] == list[..i];
    }
  }

  lemma SpliceIn(list: seq<Json>, i: nat, elem: Json)
    requires i < |list|
    ensures list[..i] + ([elem] + list[i + 1..]) == list[i := elem] && list[..i] + list[i..] == list
  {
  }

  lemma ReplaceAt(list: seq<Json>, i: nat, entry: Fields, marker: string)
    requires i < |list| && Mentions(list[i], marker) && forall j | 0 <= j < i :: !Mentions(list[j], marker)
    ensures ReplaceMarked(list, entry, marker)
            == if Command(list[i]) == StringField(entry, "command") then list else list[i := Obj(entry)]
  {
    assert list[i].Obj?;
    hide Mentions, ReplaceMarked;
    ReplaceSkips(list, i, entry, marker);
    ReplaceHead(list, i, entry, marker);
    SpliceIn(list, i, Obj(entry));
  }

  lemma ReplaceAtEnd(list: seq<Json>, entry: Fields, marker: string)
    requires forall j | 0 <= j < |list| :: !Mentions(list[j], marker)
    ensures ReplaceMarked(list, entry, marker) == list + [Obj(entry)]
  {
    hide Mentions;
    ReplaceSkips(list, |list|, entry, marker);
    assert list[..|list|] == list && list[|list|..] == [];
  }

  /** An element whose command does not hold the verb stays where it is, as it is. */
  lemma {:induction false} OthersAreKept(list: seq<Json>, entry: Fields, marker: string, i: nat)
    requires i < |list|
    requires list[i].Obj? && "command" in list[i].fields && list[i].fields["command"].Str? ==> !Contains(list[i].fields["command"].s, marker)
    requires marker != ""
    ensures i < |ReplaceMarked(list, entry, marker)| && ReplaceMarked(list, entry, marker)[i] == list[i]
  {
    if i > 0 && !Mentions(list[0], marker) {
      OthersAreKept(list[1..], entry, marker, i - 1);
    }
  }

  /** One turn of the Cursor install loop. */
  function CursorStep(hooks: Fields, event: string, entry: Fields, marker: string): Fields {
    hooks[event := Arr(ReplaceMarked(ListOf(hooks, event), entry, marker))]
  }

  // ----- what an install overwrites ----------------------------------------

  /** The first element that mentions the verb, if any, is left alone or goes with an uninstall anyway. */
  predicate LandsOnOurs(list: seq<Json>, entry: Fields, marker: string, markers: set<string>) {
    if list == [] then true
    else if Mentions(list[0], marker) then
      Command(list[0]) == StringField(entry, "command") || KeepElem(list[0], markers) == []
    else LandsOnOurs(list[1..], entry, marker, markers)
  }

  lemma KeepFlatEntry(entry: Fields, marker: string, markers: set<string>)
    requires Answers(entry, marker) && marker in markers && "hooks" !in entry
    ensures KeepElem(Obj(entry), markers) == []
  {
  }

  lemma {:induction false} ReplacedKept(list: seq<Json>, entry: Fields, marker: string, markers: set<string>)
    requires Answers(entry, marker) && marker in markers && "hooks" !in entry
    ensures LandsOnOurs(list, entry, marker, markers) ==> KeepList(ReplaceMarked(list, entry, marker), markers) == KeepList(list, markers)
    ensures !LandsOnOurs(list, entry, marker, markers) ==> |KeepList(ReplaceMarked(list, entry, marker), markers)| < |KeepList(list, markers)|
  {
    var replaced := ReplaceMarked(list, entry, marker);
    KeepFlatEntry(entry, marker, markers);
    if list == [] {
      KeepOne(Obj(entry), markers);
    } else if Mentions(list[0], marker) {
      assert replaced[1..] == list[1..];
    } else {
      ReplacedKept(list[1..], entry, marker, markers);
      assert replaced[1..] == ReplaceMarked(list[1..], entry, marker);
    }
  }

  /**
    The documentation says the Cursor installer leaves anyone else's entries alone. It
    does exactly when the event was absent, or held a non-empty list whose first
    element mentioning the verb (if any) already carries the same command or is one an
    uninstall deletes. Any other element whose command merely mentions the verb is lost.
  */
  lemma CursorInstallUndoneExactly(hooks: Fields, event: string, entry: Fields, marker: string, markers: set<string>)
    requires Answers(entry, marker) && marker in markers && "hooks" !in entry
    ensures Remove(CursorStep(hooks, event, entry, marker), markers) == Remove(hooks, markers)
            <==> event !in hooks || (hooks[event].Arr? && hooks[event].items != [] && LandsOnOurs(hooks[event].items, entry, marker, markers))
  {
    var next := CursorStep(hooks, event, entry, marker);
    var list := ListOf(hooks, event);
    ReplacedKept(list, entry, marker, markers);
    SameElsewhere(hooks, next, event, markers);
    if event in hooks && !(hooks[event].Arr? && list != []) {
      assert event in Remove(hooks, markers) && event !in Remove(next, markers);
    } else if event in hooks && !LandsOnOurs(list, entry, marker, markers) {
      assert KeepEvent(next[event], markers) != KeepEvent(hooks[event], markers);
      assert event in Remove(hooks, markers);
    }
  }

  /**
    Any foreign entry whose command mentions the verb is taken for ours: an install on
    its event overwrites it, and a full uninstall then leaves nothing of it.
  */
  lemma MentioningTheVerbIsEnough(event: string, foreign: Fields, entry: Fields, marker: string, markers: set<string>)
    requires Answers(entry, marker) && marker in markers && "hooks" !in entry
    requires "hooks" !in foreign && !Owned(Obj(foreign), markers) && Mentions(Obj(foreign), marker)
    requires StringField(foreign, "command") != StringField(entry, "command")
    ensures var hooks: Fields := map[event := Arr([Obj(foreign)])];
            Remove(hooks, markers) == hooks && Remove(CursorStep(hooks, event, entry, marker), markers) == map[]
  {
    var list := [Obj(foreign)];
    var hooks: Fields := map[event := Arr(list)];
    assert list[1..] == [];
    assert ReplaceMarked(list, entry, marker) == [Obj(entry)];
    KeepFlatEntry(entry, marker, markers);
    KeepOne(Obj(entry), markers);
    KeepOne(Obj(foreign), markers);
  }

  /** A path that holds the verb is such a mention, whatever the program is asked to do. */
  lemma ForeignPathMentionsTheVerb(exe: string, args: seq<string>, marker: string, markers: set<string>)
    requires ReadablePath(Cursor, exe) && args != [] && PlainTokens(args) && args[0] !in markers
    requires Contains(exe, marker) && QUOTE !in marker
    ensures var foreign := CursorEntry(exe, args);
            "hooks" !in foreign && !Owned(Obj(foreign), markers) && Mentions(Obj(foreign), marker)
  {
    EveryShapeIsRecognised(Cursor, exe, args, "", args[0]);
    CommandHoldsPath(exe, args, marker);
  }

  lemma CommandHoldsPath(exe: string, args: seq<string>, sub: string)
    requires QUOTE !in sub && Contains(exe, sub)
    ensures Contains(CommandString(exe, args), sub)
  {
    JoinIsPrefixed(ShellQuote(exe), args, ' ');
    var rest := Prefixed(args, ' ');
    if forall c <- exe :: !NeedsQuoting(c) {
      ContainsWiden("", exe, rest, sub);
      assert "" + exe + rest == exe + rest;
    } else {
      var body := ReplaceAll(exe, [QUOTE], ESCAPED_QUOTE);
      EscapingKeeps(exe, sub);
      ContainsWiden([QUOTE], body, [QUOTE] + rest, sub);
      assert [QUOTE] + body + ([QUOTE] + rest) == [QUOTE] + body + [QUOTE] + rest;
    }
  }

  /** Escaping the single quotes of a path leaves every stretch without them. */
  lemma EscapingKeeps(s: string, sub: string)
    requires QUOTE !in sub && Contains(s, sub)
    ensures Contains(ReplaceAll(s, [QUOTE], ESCAPED_QUOTE), sub)
  {
    hide Contains, ReplaceAll;
    var a, b := ContainsSplits(s, sub);
    assert a + sub + b == a + (sub + b);
    ReplaceAppend(a, sub + b);
    ReplaceAppend(sub, b);
    ReplaceNothing(sub);
    var x, y := ReplaceAll(a, [QUOTE], ESCAPED_QUOTE), ReplaceAll(b, [QUOTE], ESCAPED_QUOTE);
    assert x + (sub + y) == x + sub + y;
    ContainsInside(x, sub, y);
  }

  lemma {:induction false} ReplaceAppend(a: string, b: string)
    ensures ReplaceAll(a + b, [QUOTE], ESCAPED_QUOTE) == ReplaceAll(a, [QUOTE], ESCAPED_QUOTE) + ReplaceAll(b, [QUOTE], ESCAPED_QUOTE)
  {
    if a == "" {
      assert a + b == b;
    } else {
      assert (a + b)[0] == a[0] && (a + b)[1..] == a[1..] + b && (a + b)[..1] == [a[0]] == a[..1];
      ReplaceAppend(a[1..], b);
      var x, y := ReplaceAll(a[1..], [QUOTE], ESCAPED_QUOTE), ReplaceAll(b, [QUOTE], ESCAPED_QUOTE);
      var head := if a[0] == QUOTE then ESCAPED_QUOTE else [a[0]];
      assert head + (x + y) == head + x + y;
    }
  }

  // ----- histories over a Cursor file --------------------------------------

  type Verbs = map<string, string>

  /** The one verb an install writes at each Cursor event. */
  const CURSOR_VERBS: Verbs := map["stop" := "coach-hook", "beforeSubmitPrompt" := "route-guard", "PreToolUse" := "read-guard"]

  function CursorInstall(hooks: Fields, exe: string, specs: seq<HookSpec>): Fields
    decreases specs
  {
    if specs == [] then hooks
    else CursorInstall(CursorStep(hooks, CursorEvent(specs[0].event), CursorEntry(exe, specs[0].args), specs[0].marker), exe, specs[1..])
  }

  /** The specs whose turn reports a change, in order. */
  function CursorChanges(hooks: Fields, exe: string, specs: seq<HookSpec>): seq<HookSpec>
    decreases specs
  {
    if specs == [] then []
    else
      var event, entry := CursorEvent(specs[0].event), CursorEntry(exe, specs[0].args);
      (if ReplaceMarked(ListOf(hooks, event), entry, specs[0].marker) != ListOf(hooks, event) then [specs[0]] else [])
      + CursorChanges(CursorStep(hooks, event, entry, specs[0].marker), exe, specs[1..])
  }

  /** An install that reports nothing changed nothing. */
  lemma {:induction false} NoCursorChanges(hooks: Fields, exe: string, specs: seq<HookSpec>)
    requires CursorChanges(hooks, exe, specs) == []
    ensures CursorInstall(hooks, exe, specs) == hooks
    decreases specs
  {
    if specs != [] {
      var event, entry := CursorEvent(specs[0].event), CursorEntry(exe, specs[0].args);
      var list := ListOf(hooks, event);
      assert ReplaceMarked(list, entry, specs[0].marker) == list;
      assert hooks[event := hooks[event]] == hooks;
      NoCursorChanges(CursorStep(hooks, event, entry, specs[0].marker), exe, specs[1..]);
    }
  }

  lemma CursorInstallNothing(hooks: Fields, exe: string)
    ensures CursorInstall(hooks, exe, []) == hooks && CursorChanges(hooks, exe, []) == []
  {
  }

  lemma CursorInstallUnfolds(hooks: Fields, exe: string, specs: seq<HookSpec>, i: nat)
    requires i < |specs|
    ensures CursorInstall(hooks, exe, specs[i..])
            == CursorInstall(CursorStep(hooks, CursorEvent(specs[i].event), CursorEntry(exe, specs[i].args), specs[i].marker), exe, specs[i + 1..])
    ensures var event, entry := CursorEvent(specs[i].event), CursorEntry(exe, specs[i].args);
            CursorChanges(hooks, exe, specs[i..])
            == (if ReplaceMarked(ListOf(hooks, event), entry, specs[i].marker) != ListOf(hooks, event) then [specs[i]] else [])
               + CursorChanges(CursorStep(hooks, event, entry, specs[i].marker), exe, specs[i + 1..])
  {
    hide CursorStep, CursorEvent, ReplaceMarked;
    assert specs[i..][0] == specs[i] && specs[i..][1..] == specs[i + 1..];
  }

  /** The install loop in place, over the decoded hook map. */
  class CursorFile {
    var hooks: Fields

    constructor (hooks: Fields)
      ensures this.hooks == hooks
    {
      this.hooks := hooks;
    }

    method Install(exe: string, specs: seq<HookSpec>) returns (changes: seq<HookSpec>)
      modifies this
      ensures hooks == CursorInstall(old(hooks), exe, specs)
      ensures changes == CursorChanges(old(hooks), exe, specs)
      ensures changes == [] ==> hooks == old(hooks)
    {
      hide CursorInstall, CursorChanges, ReplaceMarked, CursorEvent;
      changes := [];
      assert specs[0..] == specs;
      for i := 0 to |specs|
        invariant CursorInstall(hooks, exe, specs[i..]) == CursorInstall(old(hooks), exe, specs)
        invariant changes + CursorChanges(hooks, exe, specs[i..]) == CursorChanges(old(hooks), exe, specs)
      {
        CursorInstallUnfolds(hooks, exe, specs, i);
        var event, entry := CursorEvent(specs[i].event), CursorEntry(exe, specs[i].args);
        var list := ListOf(hooks, event);
        var replaced, changed := ReplaceMarkedEntry(list, entry, specs[i].marker);
        hooks := hooks[event := Arr(replaced)];
        ghost var rest := CursorChanges(hooks, exe, specs[i + 1..]);
        assert changes + ([specs[i]] + rest) == changes + [specs[i]] + rest && changes + ([] + rest) == changes + rest;
        if changed {
          changes := changes + [specs[i]];
        }
      }
      assert specs[|specs|..] == [];
      CursorInstallNothing(hooks, exe);
      if changes == [] {
        NoCursorChanges(old(hooks), exe, specs);
      }
    }
  }

  /** A file where every element mentioning an event's verb is the wired entry, and there is at most one. */
  function Hits(list: seq<Json>, marker: string): seq<Json> {
    if list == [] then [] else (if Mentions(list[0], marker) then [list[0]] else []) + Hits(list[1..], marker)
  }

  /** An entry written by an install at a Cursor event. */
  predicate WiredEntry(elem: Json, marker: string) {
    elem.Obj? && elem.fields.Keys == {"command"} && elem.fields["command"].Str?
    && Mentions(elem, marker) && Answers(elem.fields, marker)
  }

  predicate Wires(list: seq<Json>, marker: string, wired: Option<Json>) {
    (wired.Some? ==> WiredEntry(wired.value, marker))
    && Hits(list, marker) == if wired.Some? then [wired.value] else []
  }

  lemma {:induction false} ReplaceWires(list: seq<Json>, entry: Fields, marker: string, wired: Option<Json>)
    requires Wires(list, marker, wired) && WiredEntry(Obj(entry), marker)
    ensures Wires(ReplaceMarked(list, entry, marker), marker, Some(Obj(entry)))
    ensures forall markers | marker in markers :: LandsOnOurs(list, entry, marker, markers)
  {
    var replaced := ReplaceMarked(list, entry, marker);
    if list == [] {
      assert replaced[1..] == [];
    } else if Mentions(list[0], marker) {
      assert list[0] == Hits(list, marker)[0] == wired.value;
      assert Hits(list, marker) == [list[0]] + Hits(list[1..], marker);
      assert replaced[1..] == list[1..];
      if Command(list[0]) == StringField(entry, "command") {
        assert list[0].fields == entry;
      }
    } else {
      assert Hits(list, marker) == Hits(list[1..], marker);
      ReplaceWires(list[1..], entry, marker, wired);
      assert replaced[1..] == ReplaceMarked(list[1..], entry, marker);
      assert Hits(replaced, marker) == Hits(replaced[1..], marker);
    }
  }

  lemma {:induction false} HitsAppend(x: seq<Json>, y: seq<Json>, marker: string)
    ensures Hits(x + y, marker) == Hits(x, marker) + Hits(y, marker)
  {
    hide Mentions;
    if x == [] {
      assert x + y == y;
    } else {
      assert (x + y)[0] == x[0] && (x + y)[1..] == x[1..] + y;
      HitsAppend(x[1..], y, marker);
      var head := if Mentions(x[0], marker) then [x[0]] else [];
      assert Hits(x + y, marker) == head + Hits((x + y)[1..], marker);
      assert head + (Hits(x[1..], marker) + Hits(y, marker)) == head + Hits(x[1..], marker) + Hits(y, marker);
    }
  }

  lemma HitsKeptElem(elem: Json, marker: string, markers: set<string>)
    requires Mentions(elem, marker) ==> WiredEntry(elem, marker)
    ensures Hits(KeepElem(elem, markers), marker) == if marker in markers then [] else Hits([elem], marker)
  {
    assert [elem][1..] == [];
    var kept := KeepElem(elem, markers);
    if kept != [] {
      assert kept == [kept[0]] && [kept[0]][1..] == [];
      assert elem.Obj? ==> Command(kept[0]) == Command(elem);
    }
  }

  lemma {:induction false} HitsKept(list: seq<Json>, marker: string, markers: set<string>)
    requires forall h <- Hits(list, marker) :: WiredEntry(h, marker)
    ensures Hits(KeepList(list, markers), marker) == if marker in markers then [] else Hits(list, marker)
  {
    hide MarkerOf, Contains, WiredEntry;
    if list != [] {
      assert forall h <- Hits(list[1..], marker) :: h in Hits(list, marker);
      assert Mentions(list[0], marker) ==> list[0] in Hits(list, marker);
      HitsKept(list[1..], marker, markers);
      HitsKeptElem(list[0], marker, markers);
      assert [list[0]][1..] == [];
      HitsAppend(KeepElem(list[0], markers), KeepList(list[1..], markers), marker);
    }
  }

  type CursorWiring = map<string, Json>

  function At(w: CursorWiring, event: string): Option<Json> { if event in w then Some(w[event]) else None }

  /** The invariant of a Cursor file over any history. */
  ghost predicate CursorShows(hooks: Fields, w: CursorWiring, verbs: Verbs) {
    (forall event | event in verbs :: Wires(ListOf(hooks, event), verbs[event], At(w, event)))
    && forall event | event in verbs && event in hooks :: hooks[event].Arr? && hooks[event].items != []
  }

  predicate CursorSpec(sp: HookSpec, verbs: Verbs, all: set<string>) {
    CursorEvent(sp.event) in verbs && verbs[CursorEvent(sp.event)] == sp.marker && sp.marker in all
    && sp.args != [] && sp.args[0] == sp.marker && PlainTokens(sp.args)
  }

  lemma CursorSpecsFit(sel: Selection, budget: string)
    requires !Refused(Cursor, sel) && PlainToken(budget)
    ensures forall sp <- SpecsFor(sel, budget, "", ProviderFor(Cursor)) :: CursorSpec(sp, CURSOR_VERBS, ALL_MARKERS)
  {
    CoachSpecFits(budget);
    ReadSpecsFit();
    RouteSpecFits();
    FourSpecs(sel, budget);
  }

  lemma CoachSpecFits(budget: string)
    requires PlainToken(budget)
    ensures CursorSpec(CoachSpec(budget), CURSOR_VERBS, ALL_MARKERS)
  {
    CoachSpecValid(budget);
  }

  lemma ReadSpecsFit()
    ensures CursorSpec(ReadSpec(""), CURSOR_VERBS, ALL_MARKERS) && CursorSpec(LoopTipSpec(""), CURSOR_VERBS, ALL_MARKERS)
  {
    ReadSpecsValid("");
    EventsDiffer();
  }

  lemma RouteSpecFits()
    ensures CursorSpec(RouteSpec("cursor"), CURSOR_VERBS, ALL_MARKERS)
  {
    assert PlainToken("cursor");
    RouteSpecsValid("cursor");
    EventsDiffer();
  }

  lemma FourSpecs(sel: Selection, budget: string)
    requires !sel.boundary
    ensures forall sp <- SpecsFor(sel, budget, "", "cursor") ::
              sp in {CoachSpec(budget), ReadSpec(""), LoopTipSpec(""), RouteSpec("cursor")}
  {
    assert |"cursor"| == 6 && |"anthropic"| == 9;
  }

  lemma CursorEntryIsWired(exe: string, args: seq<string>)
    requires ReadablePath(Cursor, exe) && args != [] && PlainTokens(args)
    ensures WiredEntry(Obj(CursorEntry(exe, args)), args[0])
  {
    EveryShapeIsRecognised(Cursor, exe, args, "", args[0]);
    JoinIsPrefixed(ShellQuote(exe), args, ' ');
    var before, after := ShellQuote(exe) + [' '], Prefixed(args[1..], ' ');
    assert CommandString(exe, args) == before + args[0] + after;
    ContainsInside(before, args[0], after);
  }

  lemma CursorStepShows(hooks: Fields, w: CursorWiring, event: string, entry: Fields, verbs: Verbs, all: set<string>)
    requires CursorShows(hooks, w, verbs) && event in verbs && verbs[event] in all && WiredEntry(Obj(entry), verbs[event])
    ensures var next := CursorStep(hooks, event, entry, verbs[event]);
            CursorShows(next, w[event := Obj(entry)], verbs) && Remove(next, all) == Remove(hooks, all)
  {
    var marker := verbs[event];
    var next := CursorStep(hooks, event, entry, marker);
    ReplaceWires(ListOf(hooks, event), entry, marker, At(w, event));
    CursorInstallUndoneExactly(hooks, event, entry, marker, all);
    forall e | e in verbs
      ensures Wires(ListOf(next, e), verbs[e], At(w[event := Obj(entry)], e))
    {
      assert e != event ==> ListOf(next, e) == ListOf(hooks, e);
    }
  }

  function CursorWire(w: CursorWiring, exe: string, specs: seq<HookSpec>): CursorWiring
    decreases specs
  {
    if specs == [] then w else CursorWire(w[CursorEvent(specs[0].event) := Obj(CursorEntry(exe, specs[0].args))], exe, specs[1..])
  }

  lemma {:induction false} CursorInstallShows(hooks: Fields, w: CursorWiring, exe: string, specs: seq<HookSpec>,
      verbs: Verbs, all: set<string>)
    requires CursorShows(hooks, w, verbs) && ReadablePath(Cursor, exe)
    requires forall i | 0 <= i < |specs| :: CursorSpec(specs[i], verbs, all)
    ensures CursorShows(CursorInstall(hooks, exe, specs), CursorWire(w, exe, specs), verbs)
    ensures Remove(CursorInstall(hooks, exe, specs), all) == Remove(hooks, all)
    decreases specs
  {
    if specs != [] {
      var event, entry := CursorEvent(specs[0].event), CursorEntry(exe, specs[0].args);
      CursorEntryIsWired(exe, specs[0].args);
      CursorStepShows(hooks, w, event, entry, verbs, all);
      CursorInstallShows(CursorStep(hooks, event, entry, specs[0].marker), w[event := Obj(entry)], exe, specs[1..], verbs, all);
    }
  }

  function CursorUnwire(w: CursorWiring, markers: set<string>, verbs: Verbs): CursorWiring {
    map e | e in w && (e in verbs ==> verbs[e] !in markers) :: w[e]
  }

  lemma CursorRemoveShows(hooks: Fields, w: CursorWiring, markers: set<string>, verbs: Verbs)
    requires CursorShows(hooks, w, verbs)
    ensures CursorShows(Remove(hooks, markers), CursorUnwire(w, markers, verbs), verbs)
  {
    var next := Remove(hooks, markers);
    forall e | e in verbs
      ensures Wires(ListOf(next, e), verbs[e], At(CursorUnwire(w, markers, verbs), e))
    {
      ListAfterRemove(hooks, e, markers);
      HitsKept(ListOf(hooks, e), verbs[e], markers);
    }
  }

  lemma {:induction false} OwnedIsFound(list: seq<Json>, h: Json, markers: set<string>)
    requires h in list && !Nested(h) && Owned(h, markers)
    ensures With(Entries(list), markers) != []
  {
    WithAppend(ElemEntries(list[0]), Entries(list[1..]), markers);
    if list[0] == h {
      assert ElemEntries(h)[1..] == [];
    } else {
      assert h in list[1..];
      OwnedIsFound(list[1..], h, markers);
    }
  }

  lemma {:induction false} HitsAreIn(list: seq<Json>, marker: string)
    ensures forall h <- Hits(list, marker) :: h in list
  {
    if list != [] {
      HitsAreIn(list[1..], marker);
    }
  }

  /** An uninstall that finds nothing had nothing wired to take. */
  lemma NothingWired(hooks: Fields, w: CursorWiring, markers: set<string>, verbs: Verbs)
    requires CursorShows(hooks, w, verbs) && !FindsAny(hooks, markers)
    ensures CursorShows(hooks, CursorUnwire(w, markers, verbs), verbs)
  {
    forall e | e in verbs && e in w
      ensures verbs[e] !in markers
    {
      var list := ListOf(hooks, e);
      assert At(w, e) == Some(w[e]) && Wires(list, verbs[e], At(w, e));
      HitsAreIn(list, verbs[e]);
      assert w[e] in Hits(list, verbs[e]);
      assert e in hooks && Found(hooks, e, markers) == [];
      if verbs[e] in markers {
        OwnedIsFound(list, w[e], markers);
      }
    }
    assert forall e | e in verbs :: At(CursorUnwire(w, markers, verbs), e) == At(w, e);
  }

  // ----- commands and histories --------------------------------------------

  /** One command on the hook map of a Cursor file. */
  function CursorApply(hooks: Fields, op: Op): Fields {
    match op
    case Install(exe, sel, budget) =>
      if Refused(Cursor, sel) then hooks else CursorInstall(hooks, exe, SpecsFor(sel, budget, "", ProviderFor(Cursor)))
    case Uninstall(sel) =>
      var markers := MarkerSet(SelectedMarkers(sel));
      if FindsAny(hooks, markers) then Remove(hooks, markers) else hooks
  }

  function CursorRun(hooks: Fields, ops: seq<Op>): Fields
    decreases ops
  {
    if ops == [] then hooks else CursorRun(CursorApply(hooks, ops[0]), ops[1..])
  }

  function CursorWireOp(w: CursorWiring, op: Op): CursorWiring {
    match op
    case Install(exe, sel, budget) =>
      if Refused(Cursor, sel) then w else CursorWire(w, exe, SpecsFor(sel, budget, "", ProviderFor(Cursor)))
    case Uninstall(sel) => CursorUnwire(w, MarkerSet(SelectedMarkers(sel)), CURSOR_VERBS)
  }

  function CursorWireRun(w: CursorWiring, ops: seq<Op>): CursorWiring
    decreases ops
  {
    if ops == [] then w else CursorWireRun(CursorWireOp(w, ops[0]), ops[1..])
  }

  lemma CursorOpShows(hooks: Fields, w: CursorWiring, op: Op)
    requires CursorShows(hooks, w, CURSOR_VERBS) && Usable(Cursor, op)
    ensures CursorShows(CursorApply(hooks, op), CursorWireOp(w, op), CURSOR_VERBS)
    ensures Remove(CursorApply(hooks, op), ALL_MARKERS) == Remove(hooks, ALL_MARKERS)
  {
    match op {
      case Install(exe, sel, budget) =>
        if !Refused(Cursor, sel) {
          CursorSpecsFit(sel, budget);
          CursorInstallShows(hooks, w, exe, SpecsFor(sel, budget, "", ProviderFor(Cursor)), CURSOR_VERBS, ALL_MARKERS);
        }
      case Uninstall(sel) =>
        var markers := MarkerSet(SelectedMarkers(sel));
        SelectedAreMarkers(sel);
        RemoveTwice(hooks, markers, ALL_MARKERS);
        assert markers + ALL_MARKERS == ALL_MARKERS;
        if FindsAny(hooks, markers) {
          CursorRemoveShows(hooks, w, markers, CURSOR_VERBS);
        } else {
          NothingWired(hooks, w, markers, CURSOR_VERBS);
        }
    }
  }

  /**
    Whole histories of a Cursor file: at each event status sees exactly the entry last
    installed there and not since removed, and everything else is untouched.
  */
  lemma {:induction false} CursorHistory(hooks: Fields, w: CursorWiring, ops: seq<Op>)
    requires CursorShows(hooks, w, CURSOR_VERBS) && AllUsable(Cursor, ops)
    ensures CursorShows(CursorRun(hooks, ops), CursorWireRun(w, ops), CURSOR_VERBS)
    ensures Remove(CursorRun(hooks, ops), ALL_MARKERS) == Remove(hooks, ALL_MARKERS)
    decreases ops
  {
    if ops != [] {
      CursorOpShows(hooks, w, ops[0]);
      CursorHistory(CursorApply(hooks, ops[0]), CursorWireOp(w, ops[0]), ops[1..]);
    }
  }

  /**
    Taking everything of ours out after any history gives the starting hooks back if and only
    if they held nothing of ours and no empty group to begin with.
  */
  lemma CursorRestoresExactly(hooks: Fields, w: CursorWiring, ops: seq<Op>)
    requires CursorShows(hooks, w, CURSOR_VERBS) && AllUsable(Cursor, ops)
    ensures Remove(CursorRun(hooks, ops), ALL_MARKERS) == hooks <==> Filled(hooks) && Foreign(hooks)
  {
    CursorHistory(hooks, w, ops);
    RemoveUntouchedExactly(hooks, ALL_MARKERS);
  }

  /** A Cursor uninstall takes the entries of the markers it names, or of all four, and leaves the others'. */
  lemma CursorUninstallTakesExactlyTheNamed(hooks: Fields, sel: Selection, event: string)
    ensures var after := CursorApply(hooks, Uninstall(sel));
            var none := !sel.coach && !sel.readGuard && !sel.routeGuard && !sel.boundary;
            Found(after, event, {"coach-hook"}) == (if sel.coach || none then [] else Found(hooks, event, {"coach-hook"}))
            && Found(after, event, {"read-guard"}) == (if sel.readGuard || none then [] else Found(hooks, event, {"read-guard"}))
            && Found(after, event, {"route-guard"}) == (if sel.routeGuard || none then [] else Found(hooks, event, {"route-guard"}))
            && Found(after, event, {"boundary-guard"}) == (if sel.boundary || none then [] else Found(hooks, event, {"boundary-guard"}))
  {
    hide SelectedMarkers, Found, Remove, FindsAny;
    SelectedExactly(sel);
    var markers := MarkerSet(SelectedMarkers(sel));
    RemovalOfMarker(hooks, markers, "coach-hook", event);
    RemovalOfMarker(hooks, markers, "read-guard", event);
    RemovalOfMarker(hooks, markers, "route-guard", event);
    RemovalOfMarker(hooks, markers, "boundary-guard", event);
  }

  lemma {:induction false} CursorWireAt(w: CursorWiring, exe: string, specs: seq<HookSpec>, event: string, args: seq<string>)
    requires forall sp <- specs | CursorEvent(sp.event) == event :: sp.args == args
    requires (exists sp <- specs :: CursorEvent(sp.event) == event) || (event in w && w[event] == Obj(CursorEntry(exe, args)))
    ensures var wired := CursorWire(w, exe, specs); event in wired && wired[event] == Obj(CursorEntry(exe, args))
    decreases specs
  {
    hide CursorEvent, CursorEntry;
    if specs != [] {
      assert specs[0] in specs && (forall sp <- specs[1..] :: sp in specs) && forall sp <- specs :: sp == specs[0] || sp in specs[1..];
      CursorWireAt(w[CursorEvent(specs[0].event) := Obj(CursorEntry(exe, specs[0].args))], exe, specs[1..], event, args);
    }
  }

  lemma {:induction false} CursorWireElsewhere(w: CursorWiring, exe: string, specs: seq<HookSpec>, event: string)
    requires forall sp <- specs :: CursorEvent(sp.event) != event
    ensures At(CursorWire(w, exe, specs), event) == At(w, event)
    decreases specs
  {
    hide CursorEvent, CursorEntry;
    if specs != [] {
      assert specs[0] in specs && forall sp <- specs[1..] :: sp in specs;
      CursorWireElsewhere(w[CursorEvent(specs[0].event) := Obj(CursorEntry(exe, specs[0].args))], exe, specs[1..], event);
    }
  }

  /** The one element mentioning the verb at an event, and it runs these words. */
  predicate CursorRunsAt(hooks: Fields, event: string, verb: string, words: seq<string>) {
    var hits := Hits(ListOf(hooks, event), verb);
    |hits| == 1 && hits[0].Obj? && Runs(hits[0].fields) == Some(words)
  }

  lemma CursorInstalledAt(hooks: Fields, w: CursorWiring, op: Op, event: string, args: seq<string>)
    requires CursorShows(hooks, w, CURSOR_VERBS) && op.Install? && Usable(Cursor, op) && !Refused(Cursor, op.sel)
    requires RunnablePath(Cursor, op.exe) && event in CURSOR_VERBS && forall i | 0 <= i < |args| :: PlainArg(args[i])
    requires var specs := SpecsFor(op.sel, op.budget, "", ProviderFor(Cursor));
             (exists sp <- specs :: CursorEvent(sp.event) == event) && forall sp <- specs | CursorEvent(sp.event) == event :: sp.args == args
    ensures CursorRunsAt(CursorApply(hooks, op), event, CURSOR_VERBS[event], [op.exe] + args)
  {
    hide SpecsFor, CursorEvent, Usable, RunnablePath, PlainArg, Runs, Mentions;
    var specs := SpecsFor(op.sel, op.budget, "", ProviderFor(Cursor));
    CursorOpShows(hooks, w, op);
    CursorWireAt(w, op.exe, specs, event, args);
    EntryRuns(Cursor, op.exe, args, "");
    var after := CursorApply(hooks, op);
    assert Wires(ListOf(after, event), CURSOR_VERBS[event], Some(Obj(CursorEntry(op.exe, args))));
  }

  /**
    After a Cursor install each event it writes holds one element with the hook's verb, and that
    one runs the binary with the hook's arguments.
  */
  lemma CursorInstalledHooksRun(hooks: Fields, w: CursorWiring, op: Op)
    requires CursorShows(hooks, w, CURSOR_VERBS) && op.Install? && Usable(Cursor, op) && !Refused(Cursor, op.sel)
    requires RunnablePath(Cursor, op.exe) && PlainArg(op.budget)
    ensures var after, sel := CursorApply(hooks, op), op.sel;
            var none := !sel.coach && !sel.readGuard && !sel.routeGuard && !sel.boundary;
            (sel.coach || none ==> CursorRunsAt(after, "stop", "coach-hook", [op.exe, "coach-hook", "--budget", op.budget]))
            && (none ==> CursorRunsAt(after, "PreToolUse", "read-guard", [op.exe, "read-guard"]))
            && (sel.routeGuard ==> CursorRunsAt(after, "beforeSubmitPrompt", "route-guard", [op.exe, "route-guard", "--provider", "cursor"]))
  {
    hide SpecsFor, Usable, RunnablePath, PlainArg, Runs, CursorApply, Hits, CursorShows;
    var sel, budget := op.sel, op.budget;
    var specs := SpecsFor(sel, budget, "", "cursor");
    CursorWordsArePlain();
    CursorEventsDiffer();
    forall sp | sp in specs
      ensures (CursorEvent(sp.event) == "stop" ==> sp.args == ["coach-hook", "--budget", budget])
              && (CursorEvent(sp.event) == "PreToolUse" ==> sp.args == ["read-guard"])
              && (CursorEvent(sp.event) == "beforeSubmitPrompt" ==> sp.args == ["route-guard", "--provider", "cursor"])
    {
      CursorSpecArgs(sel, budget, sp);
    }
    if sel.coach || sel.Nothing() {
      MemberCases(CoachSpec(budget), sel, budget, "cursor");
      CursorInstalledAt(hooks, w, op, "stop", ["coach-hook", "--budget", budget]);
      assert [op.exe] + ["coach-hook", "--budget", budget] == [op.exe, "coach-hook", "--budget", budget];
    }
    if sel.Nothing() {
      MemberCases(ReadSpec(""), sel, budget, "cursor");
      CursorInstalledAt(hooks, w, op, "PreToolUse", ["read-guard"]);
      assert [op.exe] + ["read-guard"] == [op.exe, "read-guard"];
    }
    if sel.routeGuard {
      MemberCases(RouteSpec("cursor"), sel, budget, "cursor");
      CursorInstalledAt(hooks, w, op, "beforeSubmitPrompt", ["route-guard", "--provider", "cursor"]);
      assert [op.exe] + ["route-guard", "--provider", "cursor"] == [op.exe, "route-guard", "--provider", "cursor"];
    }
  }

  lemma CursorEventsDiffer()
    ensures CursorEvent("Stop") == "stop" && CursorEvent("PreToolUse") == "PreToolUse" && CursorEvent("UserPromptSubmit") == "beforeSubmitPrompt"
    ensures "stop" != "PreToolUse" && "stop" != "beforeSubmitPrompt" && "PreToolUse" != "beforeSubmitPrompt"
  {
    EventsDiffer();
    assert |"stop"| == 4 && |"PreToolUse"| == 10 && |"beforeSubmitPrompt"| == 18;
  }

  lemma CursorSpecArgs(sel: Selection, budget: string, sp: HookSpec)
    requires sp in SpecsFor(sel, budget, "", "cursor") && !Refused(Cursor, sel)
    ensures (CursorEvent(sp.event) == "stop" ==> sp.args == ["coach-hook", "--budget", budget])
            && (CursorEvent(sp.event) == "PreToolUse" ==> sp.args == ["read-guard"])
            && (CursorEvent(sp.event) == "beforeSubmitPrompt" ==> sp.args == ["route-guard", "--provider", "cursor"])
  {
    hide SpecsFor;
    MemberCases(sp, sel, budget, "cursor");
    CursorEventsDiffer();
    ProvidersDiffer();
  }

  lemma CursorWordsArePlain()
    ensures PlainArg("coach-hook") && PlainArg("--budget") && PlainArg("read-guard") && PlainArg("route-guard") && PlainArg("--provider") && PlainArg("cursor")
  {
    WordsArePlain();
    hide PlainArg;
    LettersArePlain("cursor");
  }

  // ----- installing twice --------------------------------------------------

  lemma {:induction false} ReplaceTwice(list: seq<Json>, entry: Fields, marker: string)
    requires Mentions(Obj(entry), marker)
    ensures var once := ReplaceMarked(list, entry, marker); ReplaceMarked(once, entry, marker) == once
  {
    if list != [] && !Mentions(list[0], marker) {
      ReplaceTwice(list[1..], entry, marker);
      var rest := ReplaceMarked(list[1..], entry, marker);
      assert ([list[0]] + rest)[1..] == rest;
    }
  }

  predicate CursorSettled(hooks: Fields, event: string, entry: Fields, marker: string) {
    HasList(hooks, event) && ReplaceMarked(hooks[event].items, entry, marker) == hooks[event].items
  }

  /** Specs that share a Cursor event write the same entry there. */
  predicate Agree(specs: seq<HookSpec>) {
    forall i, j | 0 <= i < |specs| && 0 <= j < |specs| && CursorEvent(specs[i].event) == CursorEvent(specs[j].event) ::
      specs[i].marker == specs[j].marker && specs[i].args == specs[j].args
  }

  predicate AllSettled(hooks: Fields, exe: string, specs: seq<HookSpec>) {
    forall i | 0 <= i < |specs| :: CursorSettled(hooks, CursorEvent(specs[i].event), CursorEntry(exe, specs[i].args), specs[i].marker)
  }

  lemma {:induction false} CursorInstallSettles(hooks: Fields, exe: string, done: seq<HookSpec>, specs: seq<HookSpec>)
    requires Agree(done + specs) && AllSettled(hooks, exe, done)
    requires forall i | 0 <= i < |specs| :: Mentions(Obj(CursorEntry(exe, specs[i].args)), specs[i].marker)
    ensures AllSettled(CursorInstall(hooks, exe, specs), exe, done + specs)
    decreases specs
  {
    hide ReplaceMarked, CursorEvent, CursorEntry, Mentions;
    if specs == [] {
      assert done + specs == done;
    } else {
      var sp, all := specs[0], done + specs;
      var event, entry := CursorEvent(sp.event), CursorEntry(exe, sp.args);
      var next := CursorStep(hooks, event, entry, sp.marker);
      ReplaceTwice(ListOf(hooks, event), entry, sp.marker);
      assert all[|done|] == sp;
      forall i | 0 <= i < |done + [sp]|
        ensures CursorSettled(next, CursorEvent(all[i].event), CursorEntry(exe, all[i].args), all[i].marker)
      {
        assert i < |done| ==> all[i] == done[i];
      }
      assert forall i | 0 <= i < |done + [sp]| :: (done + [sp])[i] == all[i];
      assert done + [sp] + specs[1..] == all;
      CursorInstallSettles(next, exe, done + [sp], specs[1..]);
    }
  }

  lemma {:induction false} SettledCursorInstall(hooks: Fields, exe: string, specs: seq<HookSpec>)
    requires AllSettled(hooks, exe, specs)
    ensures CursorInstall(hooks, exe, specs) == hooks
    decreases specs
  {
    if specs != [] {
      var event := CursorEvent(specs[0].event);
      assert hooks[event := hooks[event]] == hooks;
      SettledCursorInstall(hooks, exe, specs[1..]);
    }
  }

  /** The specs of any accepted selection agree, and their entries mention their verbs. */
  lemma CursorSpecsAgree(sel: Selection, budget: string)
    requires !Refused(Cursor, sel)
    ensures Agree(SpecsFor(sel, budget, "", ProviderFor(Cursor)))
  {
    FourSpecs(sel, budget);
    FourAgree(SpecsFor(sel, budget, "", "cursor"), CoachSpec(budget), ReadSpec(""), LoopTipSpec(""), RouteSpec("cursor"));
  }

  lemma FourAgree(specs: seq<HookSpec>, a: HookSpec, b: HookSpec, c: HookSpec, d: HookSpec)
    requires forall sp <- specs :: sp in {a, b, c, d}
    requires a.event == "Stop" && b.event == c.event == "PreToolUse" && d.event == "UserPromptSubmit"
    requires b.marker == c.marker && b.args == c.args
    ensures Agree(specs)
  {
    EventsDiffer();
    assert forall i | 0 <= i < |specs| :: specs[i] in specs;
    assert |CursorEvent("Stop")| == 4 && |CursorEvent("PreToolUse")| == 10 && |CursorEvent("UserPromptSubmit")| == 18;
  }

  /** A Cursor install repeated changes nothing, whatever the file held. */
  lemma CursorInstallTwice(hooks: Fields, exe: string, sel: Selection, budget: string)
    requires ReadablePath(Cursor, exe) && PlainToken(budget)
    ensures var op := Install(exe, sel, budget); CursorApply(CursorApply(hooks, op), op) == CursorApply(hooks, op)
  {
    if !Refused(Cursor, sel) {
      var specs := SpecsFor(sel, budget, "", ProviderFor(Cursor));
      CursorSpecsFit(sel, budget);
      CursorSpecsAgree(sel, budget);
      forall i | 0 <= i < |specs|
        ensures Mentions(Obj(CursorEntry(exe, specs[i].args)), specs[i].marker)
      {
        assert specs[i] in specs;
        CursorEntryIsWired(exe, specs[i].args);
      }
      assert [] + specs == specs;
      CursorInstallSettles(hooks, exe, [], specs);
      SettledCursorInstall(CursorInstall(hooks, exe, specs), exe, specs);
    }
  }
}
