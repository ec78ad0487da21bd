/** Installing twice: the second install finds every spec settled and changes nothing. */
module HookIdempotence {
  import opened Json
  import CommandLine
  import opened HookEntries
  import opened HookConfig
  import opened HookSpecs
  import opened HookMerge
  import opened HookHistory

  lemma {:induction false} MergeEntriesTwice(entries: seq<Json>, entry: Fields, marker: string)
    requires Answers(entry, marker)
    ensures var once := MergeEntries(entries, entry, marker); MergeEntries(once, entry, marker) == once
  {
    if entries != [] && !Owned(entries[0], {marker}) {
      MergeEntriesTwice(entries[1..], entry, marker);
      assert ([entries[0]] + MergeEntries(entries[1..], entry, marker))[1..] == MergeEntries(entries[1..], entry, marker);
    }
  }

  /** A merge settles its list, whatever the list held. */
  lemma {:induction false} MergeTwice(list: seq<Json>, matcher: string, entry: Fields, marker: string)
    requires Answers(entry, marker)
    ensures var once := MergeList(list, matcher, entry, marker); MergeList(once, matcher, entry, marker) == once
  {
    var once := MergeList(list, matcher, entry, marker);
    if list == [] {
      assert once[0].fields["hooks"].items == [Obj(entry)];
      MergeEntriesTwice([], entry, marker);
      GroupSettled(once[0], [Obj(entry)]);
      assert once[1..] == [];
    } else if GroupFor(list[0], matcher) {
      var items := ListField(list[0].fields, "hooks");
      MergeEntriesTwice(items, entry, marker);
      GroupSettled(once[0], MergeEntries(items, entry, marker));
      assert once[1..] == list[1..];
    } else {
      MergeTwice(list[1..], matcher, entry, marker);
      assert once[1..] == MergeList(list[1..], matcher, entry, marker);
    }
  }

  lemma GroupSettled(elem: Json, entries: seq<Json>)
    requires Nested(elem) && elem.fields["hooks"].items == entries
    ensures Group(elem, entries) == elem
  {
    assert elem.fields["hooks" := Arr(entries)] == elem.fields;
  }

  /** The list already is what the merge would make it. */
  predicate SettledList(list: seq<Json>, matcher: string, entry: Fields, marker: string) {
    MergeList(list, matcher, entry, marker) == list
  }

  lemma SettledTail(list: seq<Json>, matcher: string, entry: Fields, marker: string)
    requires list != [] && !GroupFor(list[0], matcher)
    ensures SettledList(list, matcher, entry, marker) <==> SettledList(list[1..], matcher, entry, marker)
  {
    var rest := MergeList(list[1..], matcher, entry, marker);
    assert ([list[0]] + rest)[1..] == rest;
    assert [list[0]] + list[1..] == list;
  }

  lemma SettledHead(list: seq<Json>, matcher: string, entry: Fields, marker: string, rest: seq<Json>)
    requires list != [] && GroupFor(list[0], matcher) && SettledList(list, matcher, entry, marker)
    ensures SettledList([list[0]] + rest, matcher, entry, marker)
  {
    var merged := Group(list[0], MergeEntries(ListField(list[0].fields, "hooks"), entry, marker));
    assert MergeList(list, matcher, entry, marker)[0] == merged;
    assert ([list[0]] + rest)[1..] == rest;
  }

  lemma {:induction false} MergeKeepsSettled(list: seq<Json>, matcher: string, entry: Fields, marker: string,
      under: string, entry': Fields, marker': string)
    requires SettledList(list, matcher, entry, marker) && under != matcher
    ensures SettledList(MergeList(list, under, entry', marker'), matcher, entry, marker)
  {
    var merged := MergeList(list, under, entry', marker');
    if GroupFor(list[0], matcher) {
      SettledHead(list, matcher, entry, marker, MergeList(list[1..], under, entry', marker'));
    } else {
      SettledTail(list, matcher, entry, marker);
      if GroupFor(list[0], under) {
        assert merged[1..] == list[1..];
      } else {
        MergeKeepsSettled(list[1..], matcher, entry, marker, under, entry', marker');
        assert merged[1..] == MergeList(list[1..], under, entry', marker');
      }
      SettledTail(merged, matcher, entry, marker);
    }
  }

  lemma {:induction false} RetireKeepsSettled(list: seq<Json>, matcher: string, entry: Fields, marker: string,
      marker': string, retired: seq<string>)
    requires SettledList(list, matcher, entry, marker) && matcher !in retired
    ensures SettledList(RetireList(list, marker', retired), matcher, entry, marker)
  {
    var head, rest := RetireElem(list[0], marker', retired), RetireList(list[1..], marker', retired);
    if GroupFor(list[0], matcher) {
      SettledHead(list, matcher, entry, marker, rest);
    } else {
      SettledTail(list, matcher, entry, marker);
      RetireKeepsSettled(list[1..], matcher, entry, marker, marker', retired);
      if head == [] {
        assert RetireList(list, marker', retired) == rest;
      } else {
        assert head == [head[0]] && (head + rest)[1..] == rest;
        SettledTail(head + rest, matcher, entry, marker);
      }
    }
  }

  // ----- retiring stays done -----------------------------------------------

  /** No entry with the marker is left under the retired matchers. */
  predicate Retired(elem: Json, marker: string, retired: seq<string>) {
    elem.Obj? && MatcherOf(elem.fields) in retired ==> forall h <- ListField(elem.fields, "hooks") :: !Owned(h, {marker})
  }

  predicate AllRetired(list: seq<Json>, marker: string, retired: seq<string>) {
    forall i | 0 <= i < |list| :: Retired(list[i], marker, retired)
  }

  lemma RetiresIsNotAll(list: seq<Json>, marker: string, retired: seq<string>)
    ensures Retires(list, marker, retired) <==> !AllRetired(list, marker, retired)
  {
    if !AllRetired(list, marker, retired) {
      var i :| 0 <= i < |list| && !Retired(list[i], marker, retired);
      assert list[i] in list;
    }
  }

  lemma AllRetiredConcat(x: seq<Json>, y: seq<Json>, marker: string, retired: seq<string>)
    requires AllRetired(x, marker, retired) && AllRetired(y, marker, retired)
    ensures AllRetired(x + y, marker, retired)
  {
  }

  lemma {:induction false} KeptUnowned(entries: seq<Json>, markers: set<string>)
    ensures forall h <- KeepEntries(entries, markers) :: !Owned(h, markers) && h in entries
  {
    if entries != [] {
      KeptUnowned(entries[1..], markers);
    }
  }

  lemma {:induction false} RetireEmpties(list: seq<Json>, marker: string, retired: seq<string>)
    ensures AllRetired(RetireList(list, marker, retired), marker, retired)
  {
    if list != [] {
      RetireEmpties(list[1..], marker, retired);
      if list[0].Obj? {
        KeptUnowned(ListField(list[0].fields, "hooks"), {marker});
      }
      AllRetiredConcat(RetireElem(list[0], marker, retired), RetireList(list[1..], marker, retired), marker, retired);
    }
  }

  lemma {:induction false} RetireKeepsRetired(list: seq<Json>, marker: string, retired: seq<string>, marker': string,
      retired': seq<string>)
    requires AllRetired(list, marker, retired)
    ensures AllRetired(RetireList(list, marker', retired'), marker, retired)
  {
    if list != [] {
      RetireKeepsRetired(list[1..], marker, retired, marker', retired');
      if list[0].Obj? {
        assert Retired(list[0], marker, retired);
        KeptUnowned(ListField(list[0].fields, "hooks"), {marker'});
      }
      AllRetiredConcat(RetireElem(list[0], marker', retired'), RetireList(list[1..], marker', retired'), marker, retired);
    }
  }

  lemma {:induction false} MergeKeepsRetired(list: seq<Json>, marker: string, retired: seq<string>, under: string,
      entry: Fields, marker': string)
    requires AllRetired(list, marker, retired) && under !in retired
    ensures AllRetired(MergeList(list, under, entry, marker'), marker, retired)
  {
    if list != [] {
      if GroupFor(list[0], under) {
        AllRetiredConcat([MergeList(list, under, entry, marker')[0]], list[1..], marker, retired);
      } else {
        MergeKeepsRetired(list[1..], marker, retired, under, entry, marker');
        AllRetiredConcat([list[0]], MergeList(list[1..], under, entry, marker'), marker, retired);
      }
    }
  }

  // ----- whole installs ----------------------------------------------------

  /** Running the spec's turn would change nothing. */
  predicate Settled(hooks: Fields, sp: HookSpec, entry: Fields) {
    sp.event in hooks && hooks[sp.event].Arr?
    && SettledList(hooks[sp.event].items, sp.matcher, entry, sp.marker)
    && !Retires(hooks[sp.event].items, sp.marker, sp.supersedes)
  }

  lemma SettledStep(hooks: Fields, sp: HookSpec, entry: Fields)
    requires Settled(hooks, sp, entry)
    ensures InstallStep(hooks, sp, entry) == hooks && !StepChanges(hooks, sp, entry)
  {
    assert hooks[sp.event := hooks[sp.event]] == hooks;
  }

  lemma StepSettles(hooks: Fields, sp: HookSpec, entry: Fields)
    requires Answers(entry, sp.marker) && sp.matcher !in sp.supersedes
    ensures Settled(InstallStep(hooks, sp, entry), sp, entry)
  {
    var list := ListOf(hooks, sp.event);
    var mid := ListOf(Retire(hooks, sp.event, sp.marker, sp.supersedes), sp.event);
    RetiredList(hooks, sp.event, sp.marker, sp.supersedes, sp.event);
    MergeTwice(mid, sp.matcher, entry, sp.marker);
    RetiresIsNotAll(list, sp.marker, sp.supersedes);
    RetireEmpties(list, sp.marker, sp.supersedes);
    MergeKeepsRetired(mid, sp.marker, sp.supersedes, sp.matcher, entry, sp.marker);
    RetiresIsNotAll(MergeList(mid, sp.matcher, entry, sp.marker), sp.marker, sp.supersedes);
  }

  /** A spec apart from a settled one leaves it settled. */
  lemma StepKeepsSettled(hooks: Fields, sp: HookSpec, entry: Fields, next: HookSpec, entry': Fields)
    requires Settled(hooks, sp, entry) && Apart(sp, next)
    ensures Settled(InstallStep(hooks, next, entry'), sp, entry)
  {
    if next.event == sp.event {
      var list := hooks[sp.event].items;
      var mid := ListOf(Retire(hooks, next.event, next.marker, next.supersedes), next.event);
      RetiredList(hooks, next.event, next.marker, next.supersedes, next.event);
      RetireKeepsSettled(list, sp.matcher, entry, sp.marker, next.marker, next.supersedes);
      MergeKeepsSettled(mid, sp.matcher, entry, sp.marker, next.matcher, entry', next.marker);
      RetiresIsNotAll(list, sp.marker, sp.supersedes);
      RetireKeepsRetired(list, sp.marker, sp.supersedes, next.marker, next.supersedes);
      MergeKeepsRetired(mid, sp.marker, sp.supersedes, next.matcher, entry', next.marker);
      RetiresIsNotAll(MergeList(mid, next.matcher, entry', next.marker), sp.marker, sp.supersedes);
    }
  }

  lemma {:induction false} InstallKeepsSettled(hooks: Fields, sp: HookSpec, entry: Fields, client: Client,
      exe: string, specs: seq<HookSpec>)
    requires Settled(hooks, sp, entry) && entry == SpecEntry(client, exe, sp)
    requires forall i | 0 <= i < |specs| :: specs[i] == sp || Apart(sp, specs[i])
    ensures Settled(InstallAll(hooks, client, exe, specs), sp, entry)
    decreases specs
  {
    if specs != [] {
      var e := SpecEntry(client, exe, specs[0]);
      if specs[0] == sp {
        SettledStep(hooks, sp, entry);
      } else {
        StepKeepsSettled(hooks, sp, entry, specs[0], e);
      }
      InstallKeepsSettled(InstallStep(hooks, specs[0], e), sp, entry, client, exe, specs[1..]);
    }
  }

  lemma {:induction false} InstallSettlesAll(hooks: Fields, client: Client, exe: string, specs: seq<HookSpec>)
    requires ValidSpecs(specs) && forall i | 0 <= i < |specs| :: Answers(SpecEntry(client, exe, specs[i]), specs[i].marker)
    ensures forall i | 0 <= i < |specs| :: Settled(InstallAll(hooks, client, exe, specs), specs[i], SpecEntry(client, exe, specs[i]))
    decreases specs
  {
    hide Settled, InstallStep, SpecEntry, Answers;
    if specs != [] {
      var entry := SpecEntry(client, exe, specs[0]);
      var next := InstallStep(hooks, specs[0], entry);
      StepSettles(hooks, specs[0], entry);
      InstallKeepsSettled(next, specs[0], entry, client, exe, specs[1..]);
      InstallSettlesAll(next, client, exe, specs[1..]);
      assert forall i | 0 < i < |specs| :: specs[i] == specs[1..][i - 1];
    }
  }

  lemma {:induction false} SettledInstall(hooks: Fields, client: Client, exe: string, specs: seq<HookSpec>)
    requires forall i | 0 <= i < |specs| :: Settled(hooks, specs[i], SpecEntry(client, exe, specs[i]))
    ensures InstallAll(hooks, client, exe, specs) == hooks && Changes(hooks, client, exe, specs) == []
    decreases specs
  {
    if specs != [] {
      SettledStep(hooks, specs[0], SpecEntry(client, exe, specs[0]));
      SettledInstall(hooks, client, exe, specs[1..]);
    }
  }

  /**
    An install repeated reports no change and makes none, from any hooks at all: our own
    leftovers, superseded matchers, malformed events and foreign shapes included.
  */
  lemma InstallTwice(hooks: Fields, client: Client, exe: string, sel: Selection, budget: string)
    requires CommandLine.PlainToken(budget) && ReadablePath(client, exe)
    ensures var specs := SpecsFor(sel, budget, "", ProviderFor(client));
            var once := InstallAll(hooks, client, exe, specs);
            InstallAll(once, client, exe, specs) == once && Changes(once, client, exe, specs) == []
  {
    var specs := SpecsFor(sel, budget, "", ProviderFor(client));
    ProviderIsPlain(client);
    SpecsAreValid(sel, budget, "", ProviderFor(client));
    forall i | 0 <= i < |specs|
      ensures Answers(SpecEntry(client, exe, specs[i]), specs[i].marker)
    {
      EntryAnswers(client, exe, specs[i]);
    }
    InstallSettlesAll(hooks, client, exe, specs);
    SettledInstall(InstallAll(hooks, client, exe, specs), client, exe, specs);
  }

  /** The same for the file: the second of two equal installs writes nothing, whatever the file held. */
  lemma InstallDocTwice(doc: Fields, client: Client, exe: string, sel: Selection, budget: string)
    requires CommandLine.PlainToken(budget) && ReadablePath(client, exe)
    ensures var op := Install(exe, sel, budget); Apply(Apply(doc, client, op), client, op) == Apply(doc, client, op)
  {
    hide InstallAll, Changes, SpecsFor;
    InstallTwice(HooksMap(doc), client, exe, sel, budget);
  }

  // ----- paths whose entries are not taken for ours ------------------------

  /** The entries of the group a merge under `matcher` looks in. */
  function GroupEntries(list: seq<Json>, matcher: string): seq<Json> {
    if list == [] then []
    else if GroupFor(list[0], matcher) then ListField(list[0].fields, "hooks")
    else GroupEntries(list[1..], matcher)
  }

  /** How many entries there the spec's marker does not recognise. */
  function Unrecognised(hooks: Fields, sp: HookSpec): nat {
    Unowned(GroupEntries(ListOf(hooks, sp.event), sp.matcher), sp.marker)
  }

  function Unowned(entries: seq<Json>, marker: string): nat {
    if entries == [] then 0 else (if Owned(entries[0], {marker}) then 0 else 1) + Unowned(entries[1..], marker)
  }

  /** An entry its marker does not recognise is written again by every merge. */
  lemma {:induction false} UnownedGrows(entries: seq<Json>, entry: Fields, marker: string)
    requires !Answers(entry, marker)
    ensures Unowned(MergeEntries(entries, entry, marker), marker) == Unowned(entries, marker) + 1
  {
    var merged := MergeEntries(entries, entry, marker);
    assert !Owned(Obj(entry), {marker});
    hide MarkerOf, Owned, Answers;
    if entries == [] {
      assert merged[1..] == [];
    } else if Owned(entries[0], {marker}) {
      assert merged[1..] == entries[1..];
    } else {
      UnownedGrows(entries[1..], entry, marker);
      assert merged[1..] == MergeEntries(entries[1..], entry, marker);
    }
  }

  lemma {:induction false} MergedGroupEntries(list: seq<Json>, under: string, entry: Fields, marker: string, matcher: string)
    ensures GroupEntries(MergeList(list, under, entry, marker), matcher)
            == if matcher == under then MergeEntries(GroupEntries(list, matcher), entry, marker) else GroupEntries(list, matcher)
  {
    hide MergeEntries;
    var merged := MergeList(list, under, entry, marker);
    if list == [] {
      NewGroupEntries(under, entry, marker, matcher);
    } else if GroupFor(list[0], under) {
      assert merged[1..] == list[1..];
    } else {
      MergedGroupEntries(list[1..], under, entry, marker, matcher);
      assert merged[1..] == MergeList(list[1..], under, entry, marker);
    }
  }

  lemma NewGroupEntries(under: string, entry: Fields, marker: string, matcher: string)
    ensures GroupEntries(MergeList([], under, entry, marker), matcher)
            == if matcher == under then MergeEntries(GroupEntries([], matcher), entry, marker) else GroupEntries([], matcher)
  {
    assert GroupFor(NewGroup(under, entry), matcher) <==> matcher == under;
    assert NewGroup(under, entry).fields["hooks"] == Arr([Obj(entry)]);
    assert [NewGroup(under, entry)][1..] == [];
  }

  lemma {:induction false} RetiredGroupEntries(list: seq<Json>, marker: string, retired: seq<string>, matcher: string)
    requires matcher !in retired
    ensures GroupEntries(RetireList(list, marker, retired), matcher) == GroupEntries(list, matcher)
  {
    hide Owned, KeepEntries;
    if list != [] {
      RetiredGroupEntries(list[1..], marker, retired, matcher);
      var head, rest := RetireElem(list[0], marker, retired), RetireList(list[1..], marker, retired);
      if head == [] {
        assert RetireList(list, marker, retired) == rest;
      } else {
        assert head == [head[0]] && (head + rest)[0] == head[0] && (head + rest)[1..] == rest;
        assert GroupFor(head[0], matcher) <==> GroupFor(list[0], matcher);
      }
    }
  }

  /** A turn of the spec itself writes its entry once more, and a turn apart from it none. */
  lemma StepGrows(hooks: Fields, sp: HookSpec, next: HookSpec, entry: Fields)
    requires sp.matcher !in next.supersedes || next.event != sp.event
    requires next == sp ==> !Answers(entry, sp.marker)
    requires next == sp || Apart(sp, next)
    ensures Unrecognised(InstallStep(hooks, next, entry), sp) == Unrecognised(hooks, sp) + if next == sp then 1 else 0
  {
    hide MarkerOf, Owned, Unowned, GroupEntries, MergeEntries, Answers;
    if next.event == sp.event {
      var list := ListOf(hooks, sp.event);
      var mid := ListOf(Retire(hooks, next.event, next.marker, next.supersedes), next.event);
      RetiredList(hooks, next.event, next.marker, next.supersedes, next.event);
      RetiredGroupEntries(list, next.marker, next.supersedes, sp.matcher);
      MergedGroupEntries(mid, next.matcher, entry, next.marker, sp.matcher);
      if next == sp {
        UnownedGrows(GroupEntries(list, sp.matcher), entry, sp.marker);
      }
    }
  }

  /** So every install writes one more entry for each spec it does not recognise. */
  lemma {:induction false} UnrecognisedInstallGrows(hooks: Fields, client: Client, exe: string, specs: seq<HookSpec>,
      sp: HookSpec)
    requires !Answers(SpecEntry(client, exe, sp), sp.marker) && sp.matcher !in sp.supersedes
    requires forall i | 0 <= i < |specs| :: specs[i] == sp || Apart(sp, specs[i])
    ensures Unrecognised(InstallAll(hooks, client, exe, specs), sp) >= Unrecognised(hooks, sp) + if sp in specs then 1 else 0
    decreases specs
  {
    hide Answers, Unrecognised, InstallStep, SpecEntry;
    if specs != [] {
      var entry := SpecEntry(client, exe, specs[0]);
      StepGrows(hooks, sp, specs[0], entry);
      UnrecognisedInstallGrows(InstallStep(hooks, specs[0], entry), client, exe, specs[1..], sp);
      assert sp in specs ==> sp == specs[0] || sp in specs[1..];
    }
  }

  /**
    The help promises that running an install again never duplicates. It does not exactly when
    every entry it writes is taken for ours: for Codex, when the path reads as one token or
    holds each verb as its own finished second piece. Otherwise every install adds and reports another entry.
  */
  lemma InstallAgainExactly(hooks: Fields, client: Client, exe: string, sel: Selection, budget: string)
    requires CommandLine.PlainToken(budget)
    ensures var specs := SpecsFor(sel, budget, "", ProviderFor(client));
            var once := InstallAll(hooks, client, exe, specs);
            var all := forall sp <- specs :: Recognised(client, exe, sp.marker);
            (InstallAll(once, client, exe, specs) == once <==> all) && (Changes(once, client, exe, specs) == [] <==> all)
  {
    hide SpecsFor, ValidSpec, Recognised, InstallAll, Changes, MarkerOf;
    var specs := SpecsFor(sel, budget, "", ProviderFor(client));
    var once := InstallAll(hooks, client, exe, specs);
    ProviderIsPlain(client);
    SpecsAreValid(sel, budget, "", ProviderFor(client));
    forall i | 0 <= i < |specs|
      ensures Answers(SpecEntry(client, exe, specs[i]), specs[i].marker) <==> Recognised(client, exe, specs[i].marker)
    {
      SpecRecognisedExactly(client, exe, specs[i]);
    }
    if sp :| sp in specs && !Recognised(client, exe, sp.marker) {
      UnrecognisedInstallGrows(once, client, exe, specs, sp);
      assert InstallAll(once, client, exe, specs) != once;
      if Changes(once, client, exe, specs) == [] {
        UnchangedInstall(once, client, exe, specs);
      }
    } else {
      assert forall i | 0 <= i < |specs| :: specs[i] in specs;
      InstallSettlesAll(hooks, client, exe, specs);
      SettledInstall(once, client, exe, specs);
    }
  }

  lemma SpecRecognisedExactly(client: Client, exe: string, sp: HookSpec)
    requires ValidSpec(sp)
    ensures Answers(SpecEntry(client, exe, sp), sp.marker) <==> Recognised(client, exe, sp.marker)
  {
    RecognisedExactly(client, exe, sp.args, sp.title);
  }

  // ----- what is reported --------------------------------------------------

  /** A turn reports a change exactly when it leaves other hooks than it found. */
  lemma StepChangesExactly(hooks: Fields, sp: HookSpec, entry: Fields)
    requires sp.matcher !in sp.supersedes
    ensures StepChanges(hooks, sp, entry) <==> InstallStep(hooks, sp, entry) != hooks
  {
    hide MarkerOf, MergeList, RetireList, Retires, AllRetired;
    var list := ListOf(hooks, sp.event);
    if Retires(list, sp.marker, sp.supersedes) {
      var mid := ListOf(Retire(hooks, sp.event, sp.marker, sp.supersedes), sp.event);
      RetiredList(hooks, sp.event, sp.marker, sp.supersedes, sp.event);
      RetiresIsNotAll(list, sp.marker, sp.supersedes);
      RetireEmpties(list, sp.marker, sp.supersedes);
      MergeKeepsRetired(mid, sp.marker, sp.supersedes, sp.matcher, entry, sp.marker);
      assert ListOf(InstallStep(hooks, sp, entry), sp.event) == MergeList(mid, sp.matcher, entry, sp.marker);
    }
  }

  /** So an install reports, in order, exactly the specs whose turn changed the hooks. */
  lemma ChangesAreTheTurns(hooks: Fields, client: Client, exe: string, specs: seq<HookSpec>, i: nat)
    requires i < |specs| && specs[i].matcher !in specs[i].supersedes
    ensures var before, after := InstallAll(hooks, client, exe, specs[..i]), InstallAll(hooks, client, exe, specs[..i + 1]);
            Changes(hooks, client, exe, specs[..i + 1])
            == Changes(hooks, client, exe, specs[..i]) + (if after != before then [specs[i]] else [])
    ensures Changes(hooks, client, exe, []) == [] && InstallAll(hooks, client, exe, []) == hooks
  {
    hide InstallStep, StepChanges, SpecEntry;
    var before := InstallAll(hooks, client, exe, specs[..i]);
    var entry := SpecEntry(client, exe, specs[i]);
    assert specs[..i + 1] == specs[..i] + [specs[i]];
    InstallAppend(hooks, client, exe, specs[..i], [specs[i]]);
    StepChangesExactly(before, specs[i], entry);
    assert [specs[i]][1..] == [];
    assert InstallAll(before, client, exe, [specs[i]]) == InstallStep(before, specs[i], entry);
    assert Changes(before, client, exe, [specs[i]]) == (if StepChanges(before, specs[i], entry) then [specs[i]] else []) + [];
  }
}
