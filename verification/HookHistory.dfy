/**
  Whole histories of installs and uninstalls over one nested config (Claude Code or
  Codex): what the operator's own hooks keep, and which entries of ours are there.
*/
module HookHistory {
  import opened Basics
  import opened Json
  import opened CommandLine
  import opened HookEntries
  import opened HookConfig
  import opened HookSpecs
  import opened HookMerge

  // ----- one install -------------------------------------------------------

  /** One turn of the install loop: off the superseded matchers, then into its own group. */
  function InstallStep(hooks: Fields, sp: HookSpec, entry: Fields): Fields {
    Merge(Retire(hooks, sp.event, sp.marker, sp.supersedes), sp.event, sp.matcher, entry, sp.marker)
  }

  /** Whether that turn reports a change. */
  predicate StepChanges(hooks: Fields, sp: HookSpec, entry: Fields) {
    Retires(ListOf(hooks, sp.event), sp.marker, sp.supersedes)
    || InstallStep(hooks, sp, entry) != Retire(hooks, sp.event, sp.marker, sp.supersedes)
  }

  /** The warning of that turn, over what the retirement left. */
  function StepWarning(hooks: Fields, sp: HookSpec, entry: Fields): Option<Warning> {
    MergeWarning(ListOf(Retire(hooks, sp.event, sp.marker, sp.supersedes), sp.event), sp.matcher, entry, sp.marker)
  }

  function SpecEntry(client: Client, exe: string, sp: HookSpec): Fields {
    EntryFor(client, exe, sp.args, sp.title)
  }

  function InstallAll(hooks: Fields, client: Client, exe: string, specs: seq<HookSpec>): Fields
    decreases specs
  {
    if specs == [] then hooks
    else InstallAll(InstallStep(hooks, specs[0], SpecEntry(client, exe, specs[0])), client, exe, specs[1..])
  }

  /** The specs whose turn reports a change, in order. */
  function Changes(hooks: Fields, client: Client, exe: string, specs: seq<HookSpec>): seq<HookSpec>
    decreases specs
  {
    if specs == [] then []
    else
      var entry := SpecEntry(client, exe, specs[0]);
      (if StepChanges(hooks, specs[0], entry) then [specs[0]] else [])
      + Changes(InstallStep(hooks, specs[0], entry), client, exe, specs[1..])
  }

  /** The warnings of an install, in order. */
  function Warned(hooks: Fields, client: Client, exe: string, specs: seq<HookSpec>): seq<Warning>
    decreases specs
  {
    if specs == [] then []
    else
      var entry := SpecEntry(client, exe, specs[0]);
      var warning := StepWarning(hooks, specs[0], entry);
      (if warning.Some? then [warning.value] else []) + Warned(InstallStep(hooks, specs[0], entry), client, exe, specs[1..])
  }

  // ----- the settings document and its history -----------------------------

  /** `hooksMap`: a missing or malformed "hooks" reads as empty. */
  function HooksMap(doc: Fields): Fields {
    if "hooks" in doc && doc["hooks"].Obj? then doc["hooks"].fields else map[]
  }

  /** What an install leaves on disk: nothing is written when nothing changed. */
  function InstallDoc(doc: Fields, client: Client, exe: string, specs: seq<HookSpec>): Fields {
    if Changes(HooksMap(doc), client, exe, specs) == [] then doc
    else doc["hooks" := Obj(InstallAll(HooksMap(doc), client, exe, specs))]
  }

  function MarkerSet(markers: seq<string>): set<string> { set m | m in markers }

  /** What an uninstall leaves on disk: nothing is written when nothing was removed. */
  function UninstallDoc(doc: Fields, markers: set<string>): Fields {
    if !FindsAny(HooksMap(doc), markers) then doc
    else
      var rest := Remove(HooksMap(doc), markers);
      if rest == map[] then doc - {"hooks"} else doc["hooks" := Obj(rest)]
  }

  datatype Op =
    | Install(exe: string, sel: Selection, budget: string)
    | Uninstall(sel: Selection)

  /** One command. An install the client cannot take is refused and writes nothing. */
  function Apply(doc: Fields, client: Client, op: Op): Fields {
    match op
    case Install(exe, sel, budget) =>
      if Refused(client, sel) then doc
      else InstallDoc(doc, client, exe, SpecsFor(sel, budget, "", ProviderFor(client)))
    case Uninstall(sel) => UninstallDoc(doc, MarkerSet(SelectedMarkers(sel)))
  }

  function Run(doc: Fields, client: Client, ops: seq<Op>): Fields
    decreases ops
  {
    if ops == [] then doc else Run(Apply(doc, client, ops[0]), client, ops[1..])
  }

  /** Any binary path the client's entry shape can carry; the budget prints as one plain token. */
  predicate Usable(client: Client, op: Op) {
    op.Install? ==> ReadablePath(client, op.exe) && PlainToken(op.budget)
  }

  predicate AllUsable(client: Client, ops: seq<Op>) { forall i | 0 <= i < |ops| :: Usable(client, ops[i]) }

  // ----- configs an install does no harm to --------------------------------

  /** At the events we install on: non-empty lists whose selectable elements are groups. */
  predicate WellFormed(hooks: Fields) {
    forall event | event in SPEC_EVENTS && event in hooks ::
      hooks[event].Arr? && hooks[event].items != [] && Grouped(hooks[event].items, SPEC_MATCHERS)
  }

  /** No group anywhere is empty. */
  predicate NoEmptyGroups(list: seq<Json>) {
    forall i | 0 <= i < |list| :: Nested(list[i]) ==> list[i].fields["hooks"].items != []
  }

  predicate Filled(hooks: Fields) { forall event <- hooks :: NoEmptyGroups(ListOf(hooks, event)) }

  /** Nothing of ours anywhere. */
  predicate Foreign(hooks: Fields) { !FindsAny(hooks, ALL_MARKERS) }

  lemma EntryAnswers(client: Client, exe: string, sp: HookSpec)
    requires ValidSpec(sp) && ReadablePath(client, exe)
    ensures Answers(SpecEntry(client, exe, sp), sp.marker)
  {
    EveryShapeIsRecognised(client, exe, sp.args, sp.title, sp.marker);
  }

  lemma RetiredList(hooks: Fields, event: string, marker: string, retired: seq<string>, other: string)
    ensures ListOf(Retire(hooks, event, marker, retired), other)
            == if other == event && Retires(ListOf(hooks, event), marker, retired) then RetireList(ListOf(hooks, event), marker, retired)
               else ListOf(hooks, other)
  {
  }

  /** Two configs whose lists agree after a removal, event by event. */
  lemma SameLists(a: Fields, b: Fields, event: string, markers: set<string>)
    requires forall e :: e != event ==> (e in a <==> e in b) && (e in a ==> a[e] == b[e])
    requires event in a ==> a[event].Arr? && a[event].items != []
    requires event in b && b[event].Arr? && b[event].items != []
    requires KeepList(ListOf(a, event), markers) == KeepList(ListOf(b, event), markers)
    ensures Remove(a, markers) == Remove(b, markers)
  {
    SameElsewhere(a, b, event, markers);
  }

  /** One turn of the loop keeps a well-formed config well formed and its foreign part as it was. */
  lemma StepIsHarmless(hooks: Fields, sp: HookSpec, entry: Fields, all: set<string>, matchers: set<string>)
    requires Answers(entry, sp.marker) && sp.marker in all
    requires sp.matcher in matchers && forall i | 0 <= i < |sp.supersedes| :: sp.supersedes[i] in matchers
    requires sp.event in hooks ==> hooks[sp.event].Arr? && hooks[sp.event].items != [] && Grouped(hooks[sp.event].items, matchers)
    ensures var next := InstallStep(hooks, sp, entry);
            Remove(next, all) == Remove(hooks, all)
            && next[sp.event].Arr? && next[sp.event].items != [] && Grouped(next[sp.event].items, matchers)
            && forall e :: e != sp.event ==> (e in next <==> e in hooks) && (e in next ==> next[e] == hooks[e])
  {
    var list := ListOf(hooks, sp.event);
    var retired := ListOf(Retire(hooks, sp.event, sp.marker, sp.supersedes), sp.event);
    RetiredList(hooks, sp.event, sp.marker, sp.supersedes, sp.event);
    RetiredListKept(list, sp.marker, sp.supersedes, all, matchers);
    GroupedRetire(list, sp.marker, sp.supersedes, matchers);
    GroupedLandsSafely(retired, sp.matcher, matchers, all);
    MergedListKept(retired, sp.matcher, entry, sp.marker, all);
    GroupedMerge(retired, sp.matcher, entry, sp.marker, matchers);
    SameLists(hooks, InstallStep(hooks, sp, entry), sp.event, all);
  }

  /** A bare `Stop` hook of the operator's is lost to installing and uninstalling the coach. */
  lemma BareStopHookIsLost(exe: string, budget: string)
    requires PlainToken(budget)
    ensures var hooks: Fields := map["Stop" := Arr([Obj(map["command" := Str("x")])])];
            var sp := CoachSpec(budget);
            Remove(hooks, ALL_MARKERS) == hooks
            && Remove(InstallStep(hooks, sp, SpecEntry(ClaudeCode, exe, sp)), ALL_MARKERS) == map[]
  {
    var foreign: Fields := map["command" := Str("x")];
    var sp := CoachSpec(budget);
    CoachSpecValid(budget);
    EntryAnswers(ClaudeCode, exe, sp);
    FeedText(START, "x");
    assert Tokens("x") == [] + ["" + "x"];
    assert MarkerOf(foreign) == Some("") && "" !in ALL_MARKERS;
    BareEntryIsLost("Stop", foreign, SpecEntry(ClaudeCode, exe, sp), sp.marker, ALL_MARKERS);
  }

  lemma {:induction false} InstallIsHarmless(hooks: Fields, client: Client, exe: string, specs: seq<HookSpec>)
    requires WellFormed(hooks) && ReadablePath(client, exe)
    requires forall i | 0 <= i < |specs| :: ValidSpec(specs[i])
    ensures WellFormed(InstallAll(hooks, client, exe, specs))
    ensures Remove(InstallAll(hooks, client, exe, specs), ALL_MARKERS) == Remove(hooks, ALL_MARKERS)
    decreases specs
  {
    if specs != [] {
      var entry := SpecEntry(client, exe, specs[0]);
      EntryAnswers(client, exe, specs[0]);
      StepIsHarmless(hooks, specs[0], entry, ALL_MARKERS, SPEC_MATCHERS);
      InstallIsHarmless(InstallStep(hooks, specs[0], entry), client, exe, specs[1..]);
    }
  }

  lemma RemoveKeepsWellFormed(hooks: Fields, markers: set<string>)
    requires WellFormed(hooks)
    ensures WellFormed(Remove(hooks, markers))
  {
    forall event | event in SPEC_EVENTS && event in Remove(hooks, markers)
      ensures Grouped(Remove(hooks, markers)[event].items, SPEC_MATCHERS)
    {
      GroupedKeep(hooks[event].items, markers, SPEC_MATCHERS);
    }
  }

  /** A "hooks" value is an object with something in it, or is not there. */
  predicate DocOk(doc: Fields) {
    "hooks" in doc ==> doc["hooks"].Obj? && doc["hooks"].fields != map[]
  }

  lemma SelectedAreMarkers(sel: Selection)
    ensures MarkerSet(SelectedMarkers(sel)) <= ALL_MARKERS
    ensures sel.Nothing() ==> MarkerSet(SelectedMarkers(sel)) == ALL_MARKERS
  {
    assert HOOK_MARKERS[0] in ALL_MARKERS && HOOK_MARKERS[1] in ALL_MARKERS && HOOK_MARKERS[2] in ALL_MARKERS && HOOK_MARKERS[3] in ALL_MARKERS;
  }

  lemma UninstallDocIsHarmless(doc: Fields, markers: set<string>, all: set<string>)
    requires markers <= all
    ensures var next := UninstallDoc(doc, markers);
            (DocOk(doc) ==> DocOk(next)) && Remove(HooksMap(next), all) == Remove(HooksMap(doc), all)
            && next - {"hooks"} == doc - {"hooks"}
            && (HooksMap(next) == HooksMap(doc) || HooksMap(next) == Remove(HooksMap(doc), markers))
  {
    RemoveTwice(HooksMap(doc), markers, all);
    assert markers + all == all;
  }

  lemma {:induction false} UnchangedInstall(hooks: Fields, client: Client, exe: string, specs: seq<HookSpec>)
    requires Changes(hooks, client, exe, specs) == []
    ensures InstallAll(hooks, client, exe, specs) == hooks
    decreases specs
  {
    if specs != [] {
      var entry := SpecEntry(client, exe, specs[0]);
      assert !StepChanges(hooks, specs[0], entry);
      UnchangedInstall(InstallStep(hooks, specs[0], entry), client, exe, specs[1..]);
    }
  }

  lemma InstallDocIsHarmless(doc: Fields, client: Client, exe: string, specs: seq<HookSpec>)
    requires WellFormed(HooksMap(doc)) && ReadablePath(client, exe)
    requires specs != [] && forall i | 0 <= i < |specs| :: ValidSpec(specs[i])
    ensures var next := InstallDoc(doc, client, exe, specs);
            (DocOk(doc) ==> DocOk(next)) && WellFormed(HooksMap(next))
            && Remove(HooksMap(next), ALL_MARKERS) == Remove(HooksMap(doc), ALL_MARKERS)
            && next - {"hooks"} == doc - {"hooks"}
  {
    hide MarkerOf, ValidSpec, InstallAll, Changes, Remove, WellFormed, ReadablePath;
    InstallIsHarmless(HooksMap(doc), client, exe, specs);
    InstallIsNotEmpty(HooksMap(doc), client, exe, specs);
  }

  lemma {:induction false} InstallIsNotEmpty(hooks: Fields, client: Client, exe: string, specs: seq<HookSpec>)
    requires specs != []
    ensures InstallAll(hooks, client, exe, specs) != map[]
    decreases specs
  {
    var next := InstallStep(hooks, specs[0], SpecEntry(client, exe, specs[0]));
    assert specs[0].event in next;
    if |specs| > 1 {
      InstallIsNotEmpty(next, client, exe, specs[1..]);
    }
  }

  /**
    Whatever is installed and uninstalled, from whatever binaries, the operator's own
    part of the file stays: with our entries taken out, the hooks are what they were at the
    start with our entries taken out, group by group and in order, and no other key of the
    document changes.
  */
  lemma {:induction false} HistoryKeepsForeign(doc: Fields, client: Client, ops: seq<Op>)
    requires !client.Cursor? && WellFormed(HooksMap(doc)) && AllUsable(client, ops)
    ensures var end := Run(doc, client, ops);
            (DocOk(doc) ==> DocOk(end)) && WellFormed(HooksMap(end))
            && Remove(HooksMap(end), ALL_MARKERS) == Remove(HooksMap(doc), ALL_MARKERS)
            && end - {"hooks"} == doc - {"hooks"}
    decreases ops
  {
    if ops != [] {
      var next := Apply(doc, client, ops[0]);
      match ops[0] {
        case Install(exe, sel, budget) =>
          if !Refused(client, sel) {
            ProviderIsPlain(client);
            SpecsAreValid(sel, budget, "", ProviderFor(client));
            InstallDocIsHarmless(doc, client, exe, SpecsFor(sel, budget, "", ProviderFor(client)));
          }
        case Uninstall(sel) =>
          SelectedAreMarkers(sel);
          var markers := MarkerSet(SelectedMarkers(sel));
          UninstallDocIsHarmless(doc, markers, ALL_MARKERS);
          RemoveKeepsWellFormed(HooksMap(doc), markers);
      }
      HistoryKeepsForeign(next, client, ops[1..]);
    }
  }

  /** So every entry of the operator's, under every event, is still there, under its matcher and in order. */
  lemma ForeignEntriesStay(doc: Fields, client: Client, ops: seq<Op>, event: string)
    requires !client.Cursor? && WellFormed(HooksMap(doc)) && AllUsable(client, ops)
    ensures Without(Entries(ListOf(HooksMap(Run(doc, client, ops)), event)), ALL_MARKERS)
            == Without(Entries(ListOf(HooksMap(doc), event)), ALL_MARKERS)
  {
    HistoryKeepsForeign(doc, client, ops);
    RemovalIsExact(HooksMap(doc), ALL_MARKERS, event);
    RemovalIsExact(HooksMap(Run(doc, client, ops)), ALL_MARKERS, event);
  }

  lemma ProviderIsPlain(client: Client)
    ensures PlainToken(ProviderFor(client))
  {
  }

  /** What an uninstall leaves of one marker's entries. */
  lemma UninstallOfMarker(doc: Fields, markers: set<string>, marker: string, event: string)
    ensures Found(HooksMap(UninstallDoc(doc, markers)), event, {marker})
            == if marker in markers then [] else Found(HooksMap(doc), event, {marker})
  {
    hide Found;
    RemovalOfMarker(HooksMap(doc), markers, marker, event);
  }

  lemma RemovalOfMarker(hooks: Fields, markers: set<string>, marker: string, event: string)
    ensures Found(if FindsAny(hooks, markers) then Remove(hooks, markers) else hooks, event, {marker})
            == if marker in markers then [] else Found(hooks, event, {marker})
  {
    hide Found;
    RemovalIsExact(hooks, markers, event);
    if FindsAny(hooks, markers) {
      assert {marker} - markers == if marker in markers then {} else {marker};
      FoundNothing(hooks, event);
    } else if marker in markers {
      NoneOfMarker(hooks, event, marker, markers);
    }
  }

  lemma FoundNothing(hooks: Fields, event: string)
    ensures Found(hooks, event, {}) == []
  {
    WithNothing(Entries(ListOf(hooks, event)));
  }

  lemma NoneOfMarker(hooks: Fields, event: string, marker: string, markers: set<string>)
    requires !FindsAny(hooks, markers) && marker in markers
    ensures Found(hooks, event, {marker}) == []
  {
    if event in hooks {
      assert Found(hooks, event, markers) == [];
      WithFewer(Entries(ListOf(hooks, event)), {marker}, markers);
    }
  }

  lemma {:induction false} WithFewer(entries: seq<Located>, fewer: set<string>, markers: set<string>)
    requires fewer <= markers && With(entries, markers) == []
    ensures With(entries, fewer) == []
  {
    if entries != [] {
      WithFewer(entries[1..], fewer, markers);
    }
  }

  /**
    An uninstall takes the entries of the markers it names, or of all four when it names none,
    out of every event, and leaves those of the others exactly as they were.
  */
  lemma UninstallTakesExactlyTheNamed(doc: Fields, client: Client, sel: Selection, event: string)
    ensures var before, after := HooksMap(doc), HooksMap(Apply(doc, client, Uninstall(sel)));
            var none := !sel.coach && !sel.readGuard && !sel.routeGuard && !sel.boundary;
            Found(after, event, {"coach-hook"}) == (if sel.coach || none then [] else Found(before, event, {"coach-hook"}))
            && Found(after, event, {"read-guard"}) == (if sel.readGuard || none then [] else Found(before, event, {"read-guard"}))
            && Found(after, event, {"route-guard"}) == (if sel.routeGuard || none then [] else Found(before, event, {"route-guard"}))
            && Found(after, event, {"boundary-guard"}) == (if sel.boundary || none then [] else Found(before, event, {"boundary-guard"}))
  {
    hide SelectedMarkers, UninstallDoc, Found;
    SelectedExactly(sel);
    var markers := MarkerSet(SelectedMarkers(sel));
    UninstallOfMarker(doc, markers, "coach-hook", event);
    UninstallOfMarker(doc, markers, "read-guard", event);
    UninstallOfMarker(doc, markers, "route-guard", event);
    UninstallOfMarker(doc, markers, "boundary-guard", event);
  }

  // ----- what an install reports -------------------------------------------

  lemma {:induction false} InstallAppend(hooks: Fields, client: Client, exe: string, x: seq<HookSpec>, y: seq<HookSpec>)
    ensures InstallAll(hooks, client, exe, x + y) == InstallAll(InstallAll(hooks, client, exe, x), client, exe, y)
    ensures Changes(hooks, client, exe, x + y) == Changes(hooks, client, exe, x) + Changes(InstallAll(hooks, client, exe, x), client, exe, y)
    decreases x
  {
    hide InstallStep, StepChanges, SpecEntry;
    if x == [] {
      assert x + y == y;
    } else {
      assert (x + y)[0] == x[0] && (x + y)[1..] == x[1..] + y;
      var entry := SpecEntry(client, exe, x[0]);
      var next := InstallStep(hooks, x[0], entry);
      InstallAppend(next, client, exe, x[1..], y);
      var head := if StepChanges(hooks, x[0], entry) then [x[0]] else [];
      assert head + (Changes(next, client, exe, x[1..]) + Changes(InstallAll(next, client, exe, x[1..]), client, exe, y))
          == head + Changes(next, client, exe, x[1..]) + Changes(InstallAll(next, client, exe, x[1..]), client, exe, y);
    }
  }

  /** A command that finds nothing to do writes nothing, down to an empty hook map. */
  lemma QuietCommandsWriteNothing(doc: Fields, client: Client, op: Op)
    requires match op
             case Install(exe, sel, budget) => Changes(HooksMap(doc), client, exe, SpecsFor(sel, budget, "", ProviderFor(client))) == []
             case Uninstall(sel) =>
               forall event, m | event in HooksMap(doc) && m in SelectedMarkers(sel) :: Found(HooksMap(doc), event, {m}) == []
    ensures Apply(doc, client, op) == doc
  {
    hide SpecsFor, Changes;
    if op.Uninstall? && FindsAny(HooksMap(doc), MarkerSet(SelectedMarkers(op.sel))) {
      hide SelectedMarkers;
      var markers := MarkerSet(SelectedMarkers(op.sel));
      var event :| event in HooksMap(doc) && Found(HooksMap(doc), event, markers) != [];
      var m := SomeMarkerFound(Entries(ListOf(HooksMap(doc), event)), markers);
      assert false;
    }
  }

  lemma {:induction false} SomeMarkerFound(entries: seq<Located>, markers: set<string>) returns (m: string)
    requires With(entries, markers) != []
    ensures m in markers && With(entries, {m}) != []
  {
    if Owned(entries[0].entry, markers) {
      m := MarkerOf(entries[0].entry.fields).value;
    } else {
      m := SomeMarkerFound(entries[1..], markers);
    }
  }
}
