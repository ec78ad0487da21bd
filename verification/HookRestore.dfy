/** A full uninstall gives the starting file back: when exactly, and through any history. */
module HookRestore {
  import opened Json
  import opened HookEntries
  import opened HookConfig
  import opened HookSpecs
  import opened HookHistory

  lemma {:induction false} KeptEntriesUntouched(entries: seq<Json>, matcher: string, markers: set<string>)
    ensures |KeepEntries(entries, markers)| <= |entries|
    ensures KeepEntries(entries, markers) == entries <==> With(InGroup(entries, matcher), markers) == []
  {
    hide MarkerOf;
    if entries != [] {
      KeptEntriesUntouched(entries[1..], matcher, markers);
      assert InGroup(entries, matcher)[1..] == InGroup(entries[1..], matcher);
      if Owned(entries[0], markers) {
        assert KeepEntries(entries, markers) == KeepEntries(entries[1..], markers);
      } else {
        assert ([entries[0]] + KeepEntries(entries[1..], markers))[1..] == KeepEntries(entries[1..], markers);
        assert [entries[0]] + entries[1..] == entries;
      }
    }
  }

  lemma KeptElemUntouched(elem: Json, markers: set<string>)
    ensures |KeepElem(elem, markers)| <= 1
    ensures KeepElem(elem, markers) == [elem]
            <==> (Nested(elem) ==> elem.fields["hooks"].items != []) && With(ElemEntries(elem), markers) == []
  {
    hide MarkerOf;
    if Nested(elem) {
      var items := elem.fields["hooks"].items;
      var kept := KeepEntries(items, markers);
      KeptEntriesUntouched(items, MatcherOf(elem.fields), markers);
      if kept != [] {
        assert Group(elem, kept).fields["hooks"].items == kept;
        assert elem.fields["hooks" := Arr(items)] == elem.fields;
      }
    } else if elem.Obj? {
      assert ElemEntries(elem)[1..] == [];
    }
  }

  lemma NoEmptyHeadAndTail(list: seq<Json>)
    requires list != []
    ensures NoEmptyGroups(list)
            <==> (Nested(list[0]) ==> list[0].fields["hooks"].items != []) && NoEmptyGroups(list[1..])
  {
    assert forall i | 0 < i < |list| :: list[i] == list[1..][i - 1];
    if NoEmptyGroups(list) {
      forall i | 0 <= i < |list[1..]|
        ensures Nested(list[1..][i]) ==> list[1..][i].fields["hooks"].items != []
      {
        assert list[1..][i] == list[i + 1];
      }
    }
  }

  lemma HeadAndRest(elem: Json, tail: seq<Json>, head: seq<Json>, rest: seq<Json>)
    requires |head| <= 1 && |rest| <= |tail|
    ensures head + rest == [elem] + tail <==> head == [elem] && rest == tail
  {
    if head + rest == [elem] + tail {
      assert |head| == 1;
      assert (head + rest)[0] == head[0] && ([elem] + tail)[0] == elem;
      assert (head + rest)[1..] == rest && ([elem] + tail)[1..] == tail;
    }
  }

  lemma {:induction false} KeptListUntouched(list: seq<Json>, markers: set<string>)
    ensures |KeepList(list, markers)| <= |list|
    ensures KeepList(list, markers) == list <==> NoEmptyGroups(list) && With(Entries(list), markers) == []
  {
    hide MarkerOf, Owned;
    if list != [] {
      KeptListUntouched(list[1..], markers);
      KeptElemUntouched(list[0], markers);
      WithAppend(ElemEntries(list[0]), Entries(list[1..]), markers);
      NoEmptyHeadAndTail(list);
      HeadAndRest(list[0], list[1..], KeepElem(list[0], markers), KeepList(list[1..], markers));
      assert [list[0]] + list[1..] == list;
    }
  }

  /** A removal changes nothing exactly when there is nothing to remove and no group is empty. */
  lemma RemoveUntouchedExactly(hooks: Fields, markers: set<string>)
    ensures Remove(hooks, markers) == hooks <==> Filled(hooks) && !FindsAny(hooks, markers)
  {
    hide MarkerOf;
    forall event | event in hooks
      ensures KeepEvent(hooks[event], markers).Some? && KeepEvent(hooks[event], markers).value == hooks[event]
              <==> NoEmptyGroups(ListOf(hooks, event)) && Found(hooks, event, markers) == []
    {
      KeptListUntouched(ListOf(hooks, event), markers);
    }
    if Remove(hooks, markers) == hooks {
      assert forall event <- hooks :: event in Remove(hooks, markers);
    }
  }

  /**
    Install after install, then everything uninstalled in memory: the starting hooks come
    back exactly when they held nothing of ours and no empty group.
  */
  lemma UninstallRestoresExactly(hooks: Fields, client: Client, exe: string, specs: seq<HookSpec>)
    requires WellFormed(hooks) && ReadablePath(client, exe)
    requires forall i | 0 <= i < |specs| :: ValidSpec(specs[i])
    ensures Remove(InstallAll(hooks, client, exe, specs), ALL_MARKERS) == hooks <==> Filled(hooks) && Foreign(hooks)
  {
    InstallIsHarmless(hooks, client, exe, specs);
    RemoveUntouchedExactly(hooks, ALL_MARKERS);
  }

  // ----- no operation leaves an empty group --------------------------------

  lemma NoEmptyConcat(x: seq<Json>, y: seq<Json>)
    requires NoEmptyGroups(x) && NoEmptyGroups(y)
    ensures NoEmptyGroups(x + y)
  {
  }

  lemma {:induction false} NoEmptyMerge(list: seq<Json>, matcher: string, entry: Fields, marker: string)
    requires NoEmptyGroups(list)
    ensures NoEmptyGroups(MergeList(list, matcher, entry, marker))
  {
    if list == [] {
      assert NewGroup(matcher, entry).fields["hooks"].items == [Obj(entry)];
    } else if GroupFor(list[0], matcher) {
      var merged := MergeEntries(ListField(list[0].fields, "hooks"), entry, marker);
      assert Group(list[0], merged).fields["hooks"].items == merged;
      NoEmptyConcat([Group(list[0], merged)], list[1..]);
    } else {
      NoEmptyMerge(list[1..], matcher, entry, marker);
      NoEmptyConcat([list[0]], MergeList(list[1..], matcher, entry, marker));
    }
  }

  lemma {:induction false} NoEmptyRetire(list: seq<Json>, marker: string, retired: seq<string>)
    requires NoEmptyGroups(list)
    ensures NoEmptyGroups(RetireList(list, marker, retired))
  {
    if list != [] {
      NoEmptyRetire(list[1..], marker, retired);
      NoEmptyConcat(RetireElem(list[0], marker, retired), RetireList(list[1..], marker, retired));
    }
  }

  lemma {:induction false} NoEmptyKeep(list: seq<Json>, markers: set<string>)
    ensures NoEmptyGroups(KeepList(list, markers))
  {
    if list != [] {
      NoEmptyKeep(list[1..], markers);
      NoEmptyConcat(KeepElem(list[0], markers), KeepList(list[1..], markers));
    }
  }

  lemma FilledStep(hooks: Fields, sp: HookSpec, entry: Fields)
    requires Filled(hooks)
    ensures Filled(InstallStep(hooks, sp, entry))
  {
    var list := ListOf(hooks, sp.event);
    var retired := ListOf(Retire(hooks, sp.event, sp.marker, sp.supersedes), sp.event);
    assert NoEmptyGroups(list);
    RetiredList(hooks, sp.event, sp.marker, sp.supersedes, sp.event);
    NoEmptyRetire(list, sp.marker, sp.supersedes);
    NoEmptyMerge(retired, sp.matcher, entry, sp.marker);
    forall event | event in InstallStep(hooks, sp, entry)
      ensures NoEmptyGroups(ListOf(InstallStep(hooks, sp, entry), event))
    {
      if event != sp.event {
        assert event in hooks && ListOf(InstallStep(hooks, sp, entry), event) == ListOf(hooks, event);
      }
    }
  }

  lemma {:induction false} FilledInstall(hooks: Fields, client: Client, exe: string, specs: seq<HookSpec>)
    requires Filled(hooks)
    ensures Filled(InstallAll(hooks, client, exe, specs))
    decreases specs
  {
    if specs != [] {
      var entry := SpecEntry(client, exe, specs[0]);
      FilledStep(hooks, specs[0], entry);
      FilledInstall(InstallStep(hooks, specs[0], entry), client, exe, specs[1..]);
    }
  }

  lemma FilledRemove(hooks: Fields, markers: set<string>)
    ensures Filled(Remove(hooks, markers))
  {
    forall event | event in Remove(hooks, markers)
      ensures NoEmptyGroups(ListOf(Remove(hooks, markers), event))
    {
      NoEmptyKeep(ListOf(hooks, event), markers);
      ListAfterRemove(hooks, event, markers);
    }
  }

  lemma {:induction false} FilledRun(doc: Fields, client: Client, ops: seq<Op>)
    requires Filled(HooksMap(doc))
    ensures Filled(HooksMap(Run(doc, client, ops)))
    decreases ops
  {
    if ops != [] {
      match ops[0] {
        case Install(exe, sel, budget) =>
          FilledInstall(HooksMap(doc), client, exe, SpecsFor(sel, budget, "", ProviderFor(client)));
        case Uninstall(sel) =>
          FilledRemove(HooksMap(doc), MarkerSet(SelectedMarkers(sel)));
      }
      FilledRun(Apply(doc, client, ops[0]), client, ops[1..]);
    }
  }

  /**
    The history theorem: from a file that holds nothing of ours, no empty group and no
    empty hook map, any number of installs and partial uninstalls followed by an
    uninstall that names nothing leaves exactly the file we found.
  */
  lemma FullUninstallRestoresTheFile(doc: Fields, client: Client, ops: seq<Op>, sel: Selection)
    requires !client.Cursor? && DocOk(doc) && WellFormed(HooksMap(doc)) && AllUsable(client, ops)
    requires Filled(HooksMap(doc)) && Foreign(HooksMap(doc))
    requires sel.Nothing()
    ensures Run(Run(doc, client, ops), client, [Uninstall(sel)]) == doc
  {
    HistoryKeepsForeign(doc, client, ops);
    FilledRun(doc, client, ops);
    SelectedAreMarkers(sel);
    var end := Run(doc, client, ops);
    var hooks := HooksMap(end);
    RemoveUntouchedExactly(HooksMap(doc), ALL_MARKERS);
    RemoveUntouchedExactly(hooks, ALL_MARKERS);
    var last := Apply(end, client, Uninstall(sel));
    assert Run(end, client, [Uninstall(sel)]) == last by {
      assert [Uninstall(sel)][1..] == [];
    }
    assert HooksMap(last) == HooksMap(doc);
    UninstallDocIsHarmless(end, ALL_MARKERS, ALL_MARKERS);
    SameDoc(last, doc);
  }

  lemma {:induction false} InstallIsFound(hooks: Fields, client: Client, exe: string, specs: seq<HookSpec>)
    requires ReadablePath(client, exe) && specs != [] && forall i | 0 <= i < |specs| :: ValidSpec(specs[i])
    ensures FindsAny(InstallAll(hooks, client, exe, specs), ALL_MARKERS)
    decreases specs
  {
    hide ReadablePath, MarkerOf, MergeList, ALL_MARKERS;
    var sp, entry := specs[0], SpecEntry(client, exe, specs[0]);
    var next := InstallStep(hooks, sp, entry);
    if |specs| == 1 {
      EntryAnswers(client, exe, sp);
      MergedIsFound(ListOf(Retire(hooks, sp.event, sp.marker, sp.supersedes), sp.event), sp.matcher, entry, sp.marker, ALL_MARKERS);
      assert sp.event in next && Found(next, sp.event, ALL_MARKERS) != [];
      assert specs[1..] == [] && InstallAll(next, client, exe, []) == next;
    } else {
      InstallIsFound(next, client, exe, specs[1..]);
    }
  }

  lemma InstallDocIsFound(doc: Fields, client: Client, exe: string, specs: seq<HookSpec>)
    requires ReadablePath(client, exe) && specs != [] && forall i | 0 <= i < |specs| :: ValidSpec(specs[i])
    ensures FindsAny(HooksMap(InstallDoc(doc, client, exe, specs)), ALL_MARKERS)
  {
    InstallIsFound(HooksMap(doc), client, exe, specs);
    if Changes(HooksMap(doc), client, exe, specs) == [] {
      UnchangedInstall(HooksMap(doc), client, exe, specs);
    }
  }

  /** What an uninstall of everything writes when there is something to take out. */
  lemma RestoredExactly(doc: Fields, end: Fields)
    requires end - {"hooks"} == doc - {"hooks"} && FindsAny(HooksMap(end), ALL_MARKERS)
    requires Remove(HooksMap(end), ALL_MARKERS) == Remove(HooksMap(doc), ALL_MARKERS)
    ensures UninstallDoc(end, ALL_MARKERS) == doc <==> DocOk(doc) && Filled(HooksMap(doc)) && Foreign(HooksMap(doc))
  {
    hide Remove, FindsAny, Filled;
    var last, rest := UninstallDoc(end, ALL_MARKERS), Remove(HooksMap(doc), ALL_MARKERS);
    RemoveUntouchedExactly(HooksMap(doc), ALL_MARKERS);
    assert last - {"hooks"} == doc - {"hooks"};
    assert DocOk(last) && HooksMap(last) == rest;
    if DocOk(doc) && rest == HooksMap(doc) {
      SameDoc(last, doc);
    }
  }

  /**
    Ended by an install the client accepts and an uninstall that names nothing, any history gives
    the file back if and only if it held nothing of ours, no empty group, and a hook map that was absent or
    a non-empty object.
  */
  lemma FullUninstallRestoresExactly(doc: Fields, client: Client, ops: seq<Op>, op: Op, sel: Selection)
    requires !client.Cursor? && WellFormed(HooksMap(doc)) && AllUsable(client, ops)
    requires op.Install? && Usable(client, op) && !Refused(client, op.sel) && sel.Nothing()
    ensures Apply(Apply(Run(doc, client, ops), client, op), client, Uninstall(sel)) == doc
            <==> DocOk(doc) && Filled(HooksMap(doc)) && Foreign(HooksMap(doc))
  {
    hide Remove, FindsAny, Filled, InstallAll, Changes, SpecsFor, WellFormed;
    HistoryKeepsForeign(doc, client, ops);
    var mid := Run(doc, client, ops);
    var specs := SpecsFor(op.sel, op.budget, "", ProviderFor(client));
    ProviderIsPlain(client);
    SpecsAreValid(op.sel, op.budget, "", ProviderFor(client));
    InstallDocIsHarmless(mid, client, op.exe, specs);
    InstallDocIsFound(mid, client, op.exe, specs);
    SelectedAreMarkers(sel);
    RestoredExactly(doc, InstallDoc(mid, client, op.exe, specs));
  }

  lemma SameDoc(a: Fields, b: Fields)
    requires DocOk(a) && DocOk(b) && HooksMap(a) == HooksMap(b) && a - {"hooks"} == b - {"hooks"}
    ensures a == b
  {
    forall key | key != "hooks"
      ensures key in a <==> key in b
      ensures key in a ==> a[key] == b[key]
    {
      assert key in a <==> key in a - {"hooks"};
      assert key in b <==> key in b - {"hooks"};
    }
  }
}
