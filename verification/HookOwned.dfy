/**
  Which entries of ours a history leaves: the config refines a map from
  (event, matcher, marker) to the entry the last install wrote there.
*/
module HookOwned {
  import opened Basics
  import opened Json
  import opened CommandLine
  import opened HookEntries
  import opened HookConfig
  import opened HookSpecs
  import opened HookMerge
  import opened HookHistory

  datatype Key = Key(event: string, matcher: string, marker: string)

  type Wiring = map<Key, Json>

  function KeyOf(sp: HookSpec): Key { Key(sp.event, sp.matcher, sp.marker) }

  function WireStep(w: Wiring, sp: HookSpec, entry: Fields): Wiring {
    (map key | key in w && !(key.event == sp.event && key.marker == sp.marker && key.matcher in sp.supersedes) :: w[key])
      [KeyOf(sp) := Obj(entry)]
  }

  function WireAll(w: Wiring, client: Client, exe: string, specs: seq<HookSpec>): Wiring
    decreases specs
  {
    if specs == [] then w else WireAll(WireStep(w, specs[0], SpecEntry(client, exe, specs[0])), client, exe, specs[1..])
  }

  function Unwire(w: Wiring, markers: set<string>): Wiring {
    map key | key in w && key.marker !in markers :: w[key]
  }

  function WireOp(w: Wiring, client: Client, op: Op): Wiring {
    match op
    case Install(exe, sel, budget) =>
      if Refused(client, sel) then w else WireAll(w, client, exe, SpecsFor(sel, budget, "", ProviderFor(client)))
    case Uninstall(sel) => Unwire(w, MarkerSet(SelectedMarkers(sel)))
  }

  function WireRun(w: Wiring, client: Client, ops: seq<Op>): Wiring
    decreases ops
  {
    if ops == [] then w else WireRun(WireOp(w, client, ops[0]), client, ops[1..])
  }

  /** The entries status reports for a key. */
  function OwnAt(hooks: Fields, key: Key): seq<Located> {
    Own(ListOf(hooks, key.event), key.matcher, {key.marker})
  }

  function Wired(w: Wiring, key: Key): seq<Located> {
    if key in w then [Located(key.matcher, w[key])] else []
  }

  /** The config shows exactly the wiring, and each entry sits where the next merge will look. */
  ghost predicate Shows(hooks: Fields, w: Wiring, all: set<string>) {
    (forall event :: Sole(ListOf(hooks, event), all))
    && forall key: Key | key.marker in all :: OwnAt(hooks, key) == Wired(w, key)
  }

  lemma {:induction false} NotRetiredHoldsNone(list: seq<Json>, marker: string, retired: seq<string>,
      matcher: string, matchers: set<string>, all: set<string>)
    requires !Retires(list, marker, retired) && matcher in retired && marker in all
    requires Grouped(list, matchers) && (forall i | 0 <= i < |retired| :: retired[i] in matchers)
    requires Sole(list, all)
    ensures Own(list, matcher, {marker}) == []
  {
    hide MarkerOf;
    if list != [] {
      assert forall g <- list[1..] :: g in list;
      NotRetiredHoldsNone(list[1..], marker, retired, matcher, matchers, all);
      if GroupFor(list[0], matcher) {
        assert list[0] in list;
        UnmarkedGroup(list[0].fields["hooks"].items, marker);
        OwnOfGroup(list[0], matcher, {marker});
      } else {
        NothingElsewhere(list[0], matcher, {marker}, all);
      }
    }
  }

  lemma {:induction false} UnmarkedGroup(entries: seq<Json>, marker: string)
    requires forall h <- entries :: !Owned(h, {marker})
    ensures Marked(entries, {marker}) == []
  {
    hide MarkerOf;
    if entries != [] {
      assert entries[0] in entries && forall h <- entries[1..] :: h in entries;
      UnmarkedGroup(entries[1..], marker);
    }
  }

  /** What retiring does to the entries of one key of its event. */
  lemma RetireShows(hooks: Fields, event: string, marker: string, retired: seq<string>, matcher: string,
      other: string, matchers: set<string>, all: set<string>)
    requires Grouped(ListOf(hooks, event), matchers) && (forall i | 0 <= i < |retired| :: retired[i] in matchers)
    requires Sole(ListOf(hooks, event), all) && marker in all && other in all
    ensures Own(ListOf(Retire(hooks, event, marker, retired), event), matcher, {other})
            == if matcher in retired && other == marker then [] else Own(ListOf(hooks, event), matcher, {other})
  {
    hide MarkerOf;
    var list := ListOf(hooks, event);
    RetiredList(hooks, event, marker, retired, event);
    if Retires(list, marker, retired) {
      RetireTakes(list, marker, retired, matcher, {other}, matchers, all);
      if matcher in retired && other == marker {
        assert {other} - {marker} == {};
        OwnIsFound(list, matcher, {});
        WithNothing(Entries(list));
      } else {
        assert other != marker ==> {other} - {marker} == {other};
      }
    } else if matcher in retired && other == marker {
      NotRetiredHoldsNone(list, marker, retired, matcher, matchers, all);
    }
  }

  /** One key of the step's own event, reasoning on that event's list alone. */
  lemma StepShowsHere(hooks: Fields, sp: HookSpec, entry: Fields, matcher: string, other: string,
      matchers: set<string>, all: set<string>)
    requires Answers(entry, sp.marker) && sp.marker in all && other in all
    requires sp.matcher in matchers && sp.matcher !in sp.supersedes
    requires forall i | 0 <= i < |sp.supersedes| :: sp.supersedes[i] in matchers
    requires Grouped(ListOf(hooks, sp.event), matchers) && Sole(ListOf(hooks, sp.event), all)
    requires |Own(ListOf(hooks, sp.event), sp.matcher, {sp.marker})| <= 1
    ensures Own(ListOf(InstallStep(hooks, sp, entry), sp.event), matcher, {other})
            == if matcher == sp.matcher && other == sp.marker then [Located(matcher, Obj(entry))]
               else if matcher in sp.supersedes && other == sp.marker then []
               else Own(ListOf(hooks, sp.event), matcher, {other})
  {
    hide MarkerOf, Own, Sole, MergeList, RetireList, Retires;
    var list := ListOf(hooks, sp.event);
    var mid := ListOf(Retire(hooks, sp.event, sp.marker, sp.supersedes), sp.event);
    RetiredList(hooks, sp.event, sp.marker, sp.supersedes, sp.event);
    GroupedRetire(list, sp.marker, sp.supersedes, matchers);
    SoleRetire(list, sp.marker, sp.supersedes, matchers, all);
    RetireShows(hooks, sp.event, sp.marker, sp.supersedes, matcher, other, matchers, all);
    RetireShows(hooks, sp.event, sp.marker, sp.supersedes, sp.matcher, sp.marker, matchers, all);
    MergeSetsKey(mid, sp.matcher, entry, sp.marker, matcher, other, matchers, all);
  }

  lemma WireStepAt(w: Wiring, sp: HookSpec, entry: Fields, key: Key)
    requires key.event == sp.event && sp.matcher !in sp.supersedes
    ensures Wired(WireStep(w, sp, entry), key)
            == if key == KeyOf(sp) then [Located(key.matcher, Obj(entry))]
               else if key.matcher in sp.supersedes && key.marker == sp.marker then []
               else Wired(w, key)
  {
  }

  lemma MergeSetsKey(list: seq<Json>, under: string, entry: Fields, marker: string, matcher: string, other: string,
      matchers: set<string>, all: set<string>)
    requires Answers(entry, marker) && marker in all && other in all
    requires Grouped(list, matchers) && under in matchers && Sole(list, all)
    requires |Own(list, under, {marker})| <= 1
    ensures Own(MergeList(list, under, entry, marker), matcher, {other})
            == if matcher == under && other == marker then [Located(matcher, Obj(entry))] else Own(list, matcher, {other})
  {
    hide MarkerOf;
    if matcher == under {
      MergeSets(list, matcher, entry, marker, other, matchers, all);
    } else {
      MergeElsewhere(list, under, entry, marker, matcher, {other}, matchers);
    }
  }

  lemma StepSole(hooks: Fields, sp: HookSpec, entry: Fields, event: string, matchers: set<string>, all: set<string>)
    requires Answers(entry, sp.marker) && sp.matcher in matchers
    requires forall i | 0 <= i < |sp.supersedes| :: sp.supersedes[i] in matchers
    requires Grouped(ListOf(hooks, sp.event), matchers)
    requires Sole(ListOf(hooks, sp.event), all) && Sole(ListOf(hooks, event), all)
    ensures Sole(ListOf(InstallStep(hooks, sp, entry), event), all)
  {
    var list := ListOf(hooks, sp.event);
    var mid := ListOf(Retire(hooks, sp.event, sp.marker, sp.supersedes), sp.event);
    RetiredList(hooks, sp.event, sp.marker, sp.supersedes, sp.event);
    GroupedRetire(list, sp.marker, sp.supersedes, matchers);
    SoleRetire(list, sp.marker, sp.supersedes, matchers, all);
    SoleMerge(mid, sp.matcher, entry, sp.marker, matchers, all);
    ListAfterStep(hooks, sp, entry, event);
  }

  lemma ListAfterStep(hooks: Fields, sp: HookSpec, entry: Fields, event: string)
    ensures ListOf(InstallStep(hooks, sp, entry), event)
            == if event == sp.event
               then MergeList(ListOf(Retire(hooks, sp.event, sp.marker, sp.supersedes), sp.event), sp.matcher, entry, sp.marker)
               else ListOf(hooks, event)
  {
  }

  lemma StepShowsKey(hooks: Fields, w: Wiring, sp: HookSpec, entry: Fields, key: Key, matchers: set<string>, all: set<string>)
    requires Answers(entry, sp.marker) && sp.marker in all && key.marker in all
    requires sp.matcher in matchers && sp.matcher !in sp.supersedes
    requires forall i | 0 <= i < |sp.supersedes| :: sp.supersedes[i] in matchers
    requires Grouped(ListOf(hooks, sp.event), matchers) && Sole(ListOf(hooks, sp.event), all)
    requires OwnAt(hooks, key) == Wired(w, key) && OwnAt(hooks, KeyOf(sp)) == Wired(w, KeyOf(sp))
    ensures OwnAt(InstallStep(hooks, sp, entry), key) == Wired(WireStep(w, sp, entry), key)
  {
    ListAfterStep(hooks, sp, entry, key.event);
    if key.event == sp.event {
      StepShowsHere(hooks, sp, entry, key.matcher, key.marker, matchers, all);
      WireStepAt(w, sp, entry, key);
    }
  }

  lemma StepShows(hooks: Fields, w: Wiring, sp: HookSpec, entry: Fields, matchers: set<string>, all: set<string>)
    requires Shows(hooks, w, all) && Answers(entry, sp.marker) && sp.marker in all
    requires sp.matcher in matchers && sp.matcher !in sp.supersedes
    requires forall i | 0 <= i < |sp.supersedes| :: sp.supersedes[i] in matchers
    requires Grouped(ListOf(hooks, sp.event), matchers)
    ensures Shows(InstallStep(hooks, sp, entry), WireStep(w, sp, entry), all)
  {
    forall event
      ensures Sole(ListOf(InstallStep(hooks, sp, entry), event), all)
    {
      StepSole(hooks, sp, entry, event, matchers, all);
    }
    forall key: Key | key.marker in all
      ensures OwnAt(InstallStep(hooks, sp, entry), key) == Wired(WireStep(w, sp, entry), key)
    {
      StepShowsKey(hooks, w, sp, entry, key, matchers, all);
    }
  }

  lemma {:induction false} InstallShows(hooks: Fields, w: Wiring, client: Client, exe: string, specs: seq<HookSpec>)
    requires Shows(hooks, w, ALL_MARKERS) && WellFormed(hooks) && ReadablePath(client, exe)
    requires forall i | 0 <= i < |specs| :: ValidSpec(specs[i]) && specs[i].matcher !in specs[i].supersedes
    ensures Shows(InstallAll(hooks, client, exe, specs), WireAll(w, client, exe, specs), ALL_MARKERS)
    decreases specs
  {
    hide MarkerOf, Own, Sole, Shows, Answers, EntryFor, InstallStep, WireStep;
    if specs != [] {
      var entry := SpecEntry(client, exe, specs[0]);
      EntryAnswers(client, exe, specs[0]);
      StepIsHarmless(hooks, specs[0], entry, ALL_MARKERS, SPEC_MATCHERS);
      StepShows(hooks, w, specs[0], entry, SPEC_MATCHERS, ALL_MARKERS);
      InstallShows(InstallStep(hooks, specs[0], entry), WireStep(w, specs[0], entry), client, exe, specs[1..]);
    }
  }

  lemma RemoveShows(hooks: Fields, w: Wiring, markers: set<string>, all: set<string>)
    requires Shows(hooks, w, all)
    ensures Shows(Remove(hooks, markers), Unwire(w, markers), all)
  {
    hide MarkerOf;
    var next := Remove(hooks, markers);
    forall event
      ensures Sole(ListOf(next, event), all)
    {
      ListAfterRemove(hooks, event, markers);
      SoleKeep(ListOf(hooks, event), markers, all);
    }
    forall key: Key | key.marker in all
      ensures OwnAt(next, key) == Wired(Unwire(w, markers), key)
    {
      var list := ListOf(hooks, key.event);
      ListAfterRemove(hooks, key.event, markers);
      OwnKept(list, key.matcher, markers, {key.marker});
      assert OwnAt(hooks, key) == Wired(w, key);
      if key.marker in markers {
        assert {key.marker} - markers == {};
        OwnIsFound(list, key.matcher, {});
        WithNothing(Entries(list));
      } else {
        assert {key.marker} - markers == {key.marker};
      }
    }
  }

  lemma {:induction false} SoleWhenForeign(list: seq<Json>, all: set<string>)
    requires With(Entries(list), all) == []
    ensures Sole(list, all)
  {
    hide MarkerOf;
    if list != [] {
      WithAppend(ElemEntries(list[0]), Entries(list[1..]), all);
      SoleWhenForeign(list[1..], all);
      if Nested(list[0]) {
        OwnIsFound(list[1..], MatcherOf(list[0].fields), all);
      }
    }
  }

  lemma ForeignShowsNothing(hooks: Fields, all: set<string>)
    requires !FindsAny(hooks, all)
    ensures Shows(hooks, map[], all)
  {
    forall event
      ensures With(Entries(ListOf(hooks, event)), all) == []
    {
      if event in hooks {
        assert Found(hooks, event, all) == [];
      }
    }
    forall event
      ensures Sole(ListOf(hooks, event), all)
    {
      SoleWhenForeign(ListOf(hooks, event), all);
    }
    forall key: Key | key.marker in all
      ensures OwnAt(hooks, key) == []
    {
      OwnIsFound(ListOf(hooks, key.event), key.matcher, all);
      FewerMarkers(ListOf(hooks, key.event), key.matcher, {key.marker}, all);
    }
  }

  lemma NothingFoundShows(hooks: Fields, w: Wiring, markers: set<string>, all: set<string>)
    requires Shows(hooks, w, all) && !FindsAny(hooks, markers) && markers <= all
    ensures Shows(hooks, Unwire(w, markers), all)
  {
    forall key: Key | key.marker in all
      ensures OwnAt(hooks, key) == Wired(Unwire(w, markers), key)
    {
      assert OwnAt(hooks, key) == Wired(w, key);
      if key.marker in markers {
        var list := ListOf(hooks, key.event);
        assert key.event in hooks ==> Found(hooks, key.event, markers) == [];
        OwnIsFound(list, key.matcher, markers);
        FewerMarkers(list, key.matcher, {key.marker}, markers);
      }
    }
  }

  /**
    Refinement: whatever the history, status shows for each (event, matcher, marker)
    exactly the entry the abstract wiring holds, and nothing where it holds none.
  */
  lemma {:induction false} HistoryRefinesWiring(doc: Fields, w: Wiring, client: Client, ops: seq<Op>)
    requires !client.Cursor? && WellFormed(HooksMap(doc)) && AllUsable(client, ops)
    requires Shows(HooksMap(doc), w, ALL_MARKERS)
    ensures Shows(HooksMap(Run(doc, client, ops)), WireRun(w, client, ops), ALL_MARKERS)
    decreases ops
  {
    if ops != [] {
      var next := Apply(doc, client, ops[0]);
      HistoryKeepsForeign(doc, client, [ops[0]]);
      assert Run(doc, client, [ops[0]]) == next by {
        assert [ops[0]][1..] == [];
      }
      OpShows(doc, w, client, ops[0]);
      HistoryRefinesWiring(next, WireOp(w, client, ops[0]), client, ops[1..]);
    }
  }

  lemma OpShows(doc: Fields, w: Wiring, client: Client, op: Op)
    requires !client.Cursor? && WellFormed(HooksMap(doc)) && Usable(client, op)
    requires Shows(HooksMap(doc), w, ALL_MARKERS)
    ensures Shows(HooksMap(Apply(doc, client, op)), WireOp(w, client, op), ALL_MARKERS)
  {
    hide MarkerOf, Own, Sole, Shows, InstallAll, WireAll, Changes, SpecsFor;
    var hooks := HooksMap(doc);
    match op {
      case Install(exe, sel, budget) =>
        if !Refused(client, sel) {
          var specs := SpecsFor(sel, budget, "", ProviderFor(client));
          ProviderIsPlain(client);
          SpecsAreValid(sel, budget, "", ProviderFor(client));
          InstallShows(hooks, w, client, exe, specs);
          if Changes(hooks, client, exe, specs) == [] {
            UnchangedInstall(hooks, client, exe, specs);
          }
        }
      case Uninstall(sel) =>
        var markers := MarkerSet(SelectedMarkers(sel));
        SelectedAreMarkers(sel);
        if FindsAny(hooks, markers) {
          RemoveShows(hooks, w, markers, ALL_MARKERS);
          assert HooksMap(UninstallDoc(doc, markers)) == Remove(hooks, markers);
        } else {
          NothingFoundShows(hooks, w, markers, ALL_MARKERS);
        }
    }
  }

  /** From a file with nothing of ours, never more than one entry per (event, matcher, marker). */
  lemma NeverTwice(doc: Fields, client: Client, ops: seq<Op>, key: Key)
    requires !client.Cursor? && WellFormed(HooksMap(doc)) && AllUsable(client, ops)
    requires Foreign(HooksMap(doc)) && key.marker in ALL_MARKERS
    ensures var hooks := HooksMap(Run(doc, client, ops));
            Under(Found(hooks, key.event, {key.marker}), key.matcher) == Wired(WireRun(map[], client, ops), key)
            && |Under(Found(hooks, key.event, {key.marker}), key.matcher)| <= 1
  {
    ForeignShowsNothing(HooksMap(doc), ALL_MARKERS);
    HistoryRefinesWiring(doc, map[], client, ops);
    var hooks := HooksMap(Run(doc, client, ops));
    OwnIsFound(ListOf(hooks, key.event), key.matcher, {key.marker});
    assert OwnAt(hooks, key) == Wired(WireRun(map[], client, ops), key);
  }

  /** After an install every spec it named is wired to its binary. */
  lemma {:induction false} InstallWires(w: Wiring, client: Client, exe: string, specs: seq<HookSpec>, i: nat)
    requires PairwiseApart(specs) && i < |specs|
    ensures var wired := WireAll(w, client, exe, specs);
            KeyOf(specs[i]) in wired && wired[KeyOf(specs[i])] == Obj(SpecEntry(client, exe, specs[i]))
    ensures var wired := WireAll(w, client, exe, specs);
            RunnablePath(client, exe) && (forall k | 0 <= k < |specs[i].args| :: PlainArg(specs[i].args[k])) ==>
              KeyOf(specs[i]) in wired && wired[KeyOf(specs[i])].Obj? && Runs(wired[KeyOf(specs[i])].fields) == Some([exe] + specs[i].args)
    decreases specs
  {
    hide Runs, RunnablePath, EntryFor, PlainArg;
    if RunnablePath(client, exe) && (forall k | 0 <= k < |specs[i].args| :: PlainArg(specs[i].args[k])) {
      EntryRuns(client, exe, specs[i].args, specs[i].title);
    }
    var next := WireStep(w, specs[0], SpecEntry(client, exe, specs[0]));
    if i == 0 {
      LaterInstallsKeep(next, client, exe, specs[1..], specs[0]);
    } else {
      InstallWires(next, client, exe, specs[1..], i - 1);
    }
  }

  lemma {:induction false} LaterInstallsKeep(w: Wiring, client: Client, exe: string, specs: seq<HookSpec>, sp: HookSpec)
    requires KeyOf(sp) in w && w[KeyOf(sp)] == Obj(SpecEntry(client, exe, sp)) && sp.matcher !in sp.supersedes
    requires forall i | 0 <= i < |specs| :: specs[i] == sp || Apart(sp, specs[i])
    ensures var wired := WireAll(w, client, exe, specs);
            KeyOf(sp) in wired && wired[KeyOf(sp)] == Obj(SpecEntry(client, exe, sp))
    decreases specs
  {
    if specs != [] {
      LaterInstallsKeep(WireStep(w, specs[0], SpecEntry(client, exe, specs[0])), client, exe, specs[1..], sp);
    }
  }

  // ----- the rewiring warning ----------------------------------------------

  function OldCommand(h: Json): string { if h.Obj? then StringField(h.fields, "command") else "" }

  lemma {:induction false} GroupWarns(entries: seq<Json>, entry: Fields, marker: string)
    requires Answers(entry, marker) && "command" in entry && entry["command"].Str?
    requires |Marked(entries, {marker})| <= 1
    ensures MergeEntriesWarning(entries, entry, marker)
            == var marked := Marked(entries, {marker});
               if marked != [] && OldCommand(marked[0]) != entry["command"].s then Some(Rewired(marker, OldCommand(marked[0]))) else None
  {
    if entries != [] {
      if Owned(entries[0], {marker}) {
        assert Marked(entries, {marker})[0] == entries[0];
      } else {
        assert Marked(entries, {marker}) == Marked(entries[1..], {marker});
        GroupWarns(entries[1..], entry, marker);
      }
    }
  }

  lemma {:induction false} ListWarns(list: seq<Json>, matcher: string, entry: Fields, marker: string,
      matchers: set<string>, all: set<string>)
    requires Answers(entry, marker) && "command" in entry && entry["command"].Str? && marker in all
    requires Grouped(list, matchers) && matcher in matchers && Sole(list, all)
    requires |Own(list, matcher, {marker})| <= 1
    ensures MergeWarning(list, matcher, entry, marker)
            == var own := Own(list, matcher, {marker});
               if own != [] && OldCommand(own[0].entry) != entry["command"].s then Some(Rewired(marker, OldCommand(own[0].entry))) else None
  {
    if list != [] {
      if GroupFor(list[0], matcher) {
        var items := list[0].fields["hooks"].items;
        FewerMarkers(list[1..], matcher, {marker}, all);
        OwnOfGroup(list[0], matcher, {marker});
        InGroupLength(Marked(items, {marker}), matcher);
        GroupWarns(items, entry, marker);
      } else {
        NothingElsewhere(list[0], matcher, {marker}, all);
        ListWarns(list[1..], matcher, entry, marker, matchers, all);
      }
    }
  }

  /** The warning the wiring calls for: an entry for the spec that ran another command. */
  function RewiringWarning(w: Wiring, client: Client, exe: string, sp: HookSpec): Option<Warning> {
    if KeyOf(sp) in w && OldCommand(w[KeyOf(sp)]) != StringField(SpecEntry(client, exe, sp), "command")
    then Some(Rewired(sp.marker, OldCommand(w[KeyOf(sp)]))) else None
  }

  function RewiringWarnings(w: Wiring, client: Client, exe: string, specs: seq<HookSpec>): seq<Warning>
    decreases specs
  {
    if specs == [] then []
    else
      var warning := RewiringWarning(w, client, exe, specs[0]);
      (if warning.Some? then [warning.value] else [])
      + RewiringWarnings(WireStep(w, specs[0], SpecEntry(client, exe, specs[0])), client, exe, specs[1..])
  }

  /** One turn, its retirement included, warns exactly as the wiring calls for. */
  lemma StepWarns(hooks: Fields, w: Wiring, client: Client, exe: string, sp: HookSpec, matchers: set<string>, all: set<string>)
    requires Shows(hooks, w, all) && Answers(SpecEntry(client, exe, sp), sp.marker) && sp.marker in all
    requires sp.matcher in matchers && sp.matcher !in sp.supersedes
    requires forall i | 0 <= i < |sp.supersedes| :: sp.supersedes[i] in matchers
    requires Grouped(ListOf(hooks, sp.event), matchers)
    ensures StepWarning(hooks, sp, SpecEntry(client, exe, sp)) == RewiringWarning(w, client, exe, sp)
  {
    hide MarkerOf, Own, Sole, MergeList, RetireList, Retires, MergeWarning, Answers, Grouped;
    var list := ListOf(hooks, sp.event);
    var mid := ListOf(Retire(hooks, sp.event, sp.marker, sp.supersedes), sp.event);
    RetiredList(hooks, sp.event, sp.marker, sp.supersedes, sp.event);
    GroupedRetire(list, sp.marker, sp.supersedes, matchers);
    SoleRetire(list, sp.marker, sp.supersedes, matchers, all);
    RetireShows(hooks, sp.event, sp.marker, sp.supersedes, sp.matcher, sp.marker, matchers, all);
    assert OwnAt(hooks, KeyOf(sp)) == Wired(w, KeyOf(sp));
    assert Own(mid, sp.matcher, {sp.marker}) == Wired(w, KeyOf(sp));
    ListWarns(mid, sp.matcher, SpecEntry(client, exe, sp), sp.marker, matchers, all);
  }

  /**
    An install warns exactly for the specs whose wired entry ran another command when their
    turn came, in order, and each warning names that command.
  */
  lemma {:induction false} WarnsExactlyOnRewiring(hooks: Fields, w: Wiring, client: Client, exe: string, specs: seq<HookSpec>)
    requires Shows(hooks, w, ALL_MARKERS) && WellFormed(hooks) && ReadablePath(client, exe)
    requires forall i | 0 <= i < |specs| :: ValidSpec(specs[i]) && specs[i].matcher !in specs[i].supersedes
    ensures Warned(hooks, client, exe, specs) == RewiringWarnings(w, client, exe, specs)
    decreases specs
  {
    hide MarkerOf, Own, Sole, Shows, Answers, EntryFor, InstallStep, WireStep, StepWarning, RewiringWarning;
    if specs != [] {
      var entry := SpecEntry(client, exe, specs[0]);
      EntryAnswers(client, exe, specs[0]);
      StepIsHarmless(hooks, specs[0], entry, ALL_MARKERS, SPEC_MATCHERS);
      StepShows(hooks, w, specs[0], entry, SPEC_MATCHERS, ALL_MARKERS);
      StepWarns(hooks, w, client, exe, specs[0], SPEC_MATCHERS, ALL_MARKERS);
      WarnsExactlyOnRewiring(InstallStep(hooks, specs[0], entry), WireStep(w, specs[0], entry), client, exe, specs[1..]);
    }
  }

  // ----- what an installed hook runs ---------------------------------------

  /** Status shows one entry for the key, and it runs these words. */
  predicate RunsAt(hooks: Fields, event: string, matcher: string, marker: string, words: seq<string>) {
    var found := Under(Found(hooks, event, {marker}), matcher);
    |found| == 1 && found[0].entry.Obj? && Runs(found[0].entry.fields) == Some(words)
  }

  lemma {:induction false} UnwrittenKeysStay(w: Wiring, client: Client, exe: string, specs: seq<HookSpec>, key: Key)
    requires forall sp <- specs :: KeyOf(sp) != key && !(key.event == sp.event && key.marker == sp.marker && key.matcher in sp.supersedes)
    ensures Wired(WireAll(w, client, exe, specs), key) == Wired(w, key)
    decreases specs
  {
    if specs != [] {
      assert specs[0] in specs && forall sp <- specs[1..] :: sp in specs;
      UnwrittenKeysStay(WireStep(w, specs[0], SpecEntry(client, exe, specs[0])), client, exe, specs[1..], key);
    }
  }

  lemma {:induction false} RetiredKeysGo(w: Wiring, client: Client, exe: string, specs: seq<HookSpec>, key: Key)
    requires forall sp <- specs :: KeyOf(sp) != key
    requires exists sp <- specs :: key.event == sp.event && key.marker == sp.marker && key.matcher in sp.supersedes
    ensures Wired(WireAll(w, client, exe, specs), key) == []
    decreases specs
  {
    var sp := specs[0];
    assert sp in specs && (forall s <- specs[1..] :: s in specs) && forall s <- specs :: s == sp || s in specs[1..];
    var next := WireStep(w, sp, SpecEntry(client, exe, sp));
    if exists s <- specs[1..] :: key.event == s.event && key.marker == s.marker && key.matcher in s.supersedes {
      RetiredKeysGo(next, client, exe, specs[1..], key);
    } else {
      UnwrittenKeysStay(next, client, exe, specs[1..], key);
    }
  }

  /** What the list of specs says of a key after an install: its entry, gone, or as it was. */
  lemma InstalledAt(doc: Fields, w: Wiring, client: Client, op: Op, key: Key)
    requires !client.Cursor? && WellFormed(HooksMap(doc)) && Shows(HooksMap(doc), w, ALL_MARKERS)
    requires op.Install? && Usable(client, op) && !Refused(client, op.sel) && key.marker in ALL_MARKERS
    ensures var specs := SpecsFor(op.sel, op.budget, "", ProviderFor(client));
            var shown := Under(Found(HooksMap(Apply(doc, client, op)), key.event, {key.marker}), key.matcher);
            (forall sp <- specs :: KeyOf(sp) == key ==> shown == [Located(key.matcher, Obj(SpecEntry(client, op.exe, sp)))])
            && ((forall sp <- specs :: KeyOf(sp) != key) ==>
                  shown == if exists sp <- specs :: key.event == sp.event && key.marker == sp.marker && key.matcher in sp.supersedes then []
                           else Under(Found(HooksMap(doc), key.event, {key.marker}), key.matcher))
  {
    hide SpecsFor, WireAll, Own, Sole, ValidSpec, WellFormed, Usable;
    var before, after := HooksMap(doc), HooksMap(Apply(doc, client, op));
    var specs := SpecsFor(op.sel, op.budget, "", ProviderFor(client));
    OpShows(doc, w, client, op);
    UsableBudget(client, op);
    ProviderIsPlain(client);
    SpecsAreValid(op.sel, op.budget, "", ProviderFor(client));
    OwnIsFound(ListOf(after, key.event), key.matcher, {key.marker});
    OwnIsFound(ListOf(before, key.event), key.matcher, {key.marker});
    assert OwnAt(after, key) == Wired(WireAll(w, client, op.exe, specs), key);
    assert OwnAt(before, key) == Wired(w, key);
    forall sp | sp in specs && KeyOf(sp) == key
      ensures Wired(WireAll(w, client, op.exe, specs), key) == [Located(key.matcher, Obj(SpecEntry(client, op.exe, sp)))]
    {
      var i :| 0 <= i < |specs| && specs[i] == sp;
      InstallWires(w, client, op.exe, specs, i);
    }
    if forall sp <- specs :: KeyOf(sp) != key {
      if exists sp <- specs :: key.event == sp.event && key.marker == sp.marker && key.matcher in sp.supersedes {
        RetiredKeysGo(w, client, op.exe, specs, key);
      } else {
        UnwrittenKeysStay(w, client, op.exe, specs, key);
      }
    }
  }

  lemma UsableBudget(client: Client, op: Op)
    requires op.Install? && Usable(client, op)
    ensures PlainToken(op.budget) && ReadablePath(client, op.exe)
  {
  }

  /**
    After an install, status shows for each wanted hook one entry, under its event and matcher, and it
    runs the binary with the hook's arguments. Under every other key of a marker what was shown still
    is, unless a wanted hook replaces it.
  */
  lemma InstalledHooksRun(doc: Fields, w: Wiring, client: Client, op: Op, event: string, matcher: string,
      marker: string, args: seq<string>, supersedes: seq<string>)
    requires !client.Cursor? && WellFormed(HooksMap(doc)) && Shows(HooksMap(doc), w, ALL_MARKERS)
    requires op.Install? && Usable(client, op) && !Refused(client, op.sel) && RunnablePath(client, op.exe) && PlainArg(op.budget)
    requires Wanted(client, op.sel, op.budget, event, matcher, marker, args, supersedes)
    ensures RunsAt(HooksMap(Apply(doc, client, op)), event, matcher, marker, [op.exe] + args)
  {
    hide Wanted, Shows, Usable, Runs, Found, Under, Apply, SpecsFor, WellFormed, RunnablePath;
    var sp := WantedIsSpec(client, op.sel, op.budget, event, matcher, marker, args, supersedes);
    WantedArgs(client, op.sel, op.budget, event, matcher, marker, args, supersedes);
    InstalledAt(doc, w, client, op, Key(event, matcher, marker));
    EntryRuns(client, op.exe, args, sp.title);
  }

  lemma WantedArgs(client: Client, sel: Selection, budget: string, event: string, matcher: string, marker: string,
      args: seq<string>, supersedes: seq<string>)
    requires !client.Cursor? && Wanted(client, sel, budget, event, matcher, marker, args, supersedes) && PlainArg(budget)
    ensures marker in ALL_MARKERS && forall i | 0 <= i < |args| :: PlainArg(args[i])
  {
    hide PlainArg;
    assert HOOK_MARKERS[0] in ALL_MARKERS && HOOK_MARKERS[1] in ALL_MARKERS && HOOK_MARKERS[2] in ALL_MARKERS && HOOK_MARKERS[3] in ALL_MARKERS;
    WordsArePlain();
  }

  /** The rest of the same: a key no wanted hook has shows what it did, or nothing if one replaces it. */
  lemma InstallLeavesTheRest(doc: Fields, w: Wiring, client: Client, op: Op, key: Key)
    requires !client.Cursor? && WellFormed(HooksMap(doc)) && Shows(HooksMap(doc), w, ALL_MARKERS)
    requires op.Install? && Usable(client, op) && !Refused(client, op.sel) && key.marker in ALL_MARKERS
    requires forall args, supersedes :: !Wanted(client, op.sel, op.budget, key.event, key.matcher, key.marker, args, supersedes)
    ensures Under(Found(HooksMap(Apply(doc, client, op)), key.event, {key.marker}), key.matcher)
            == if exists matcher, args, supersedes ::
                    Wanted(client, op.sel, op.budget, key.event, matcher, key.marker, args, supersedes) && key.matcher in supersedes
               then [] else Under(Found(HooksMap(doc), key.event, {key.marker}), key.matcher)
  {
    hide Wanted, Shows, Usable, Found, Under, Apply, SpecsFor, WellFormed;
    var specs := SpecsFor(op.sel, op.budget, "", ProviderFor(client));
    InstalledAt(doc, w, client, op, key);
    forall sp | sp in specs
      ensures Wanted(client, op.sel, op.budget, sp.event, sp.matcher, sp.marker, sp.args, sp.supersedes)
    {
      SpecIsWanted(client, op.sel, op.budget, sp);
    }
    if matcher, args, supersedes :|
        Wanted(client, op.sel, op.budget, key.event, matcher, key.marker, args, supersedes) && key.matcher in supersedes {
      var sp := WantedIsSpec(client, op.sel, op.budget, key.event, matcher, key.marker, args, supersedes);
    }
  }
}
