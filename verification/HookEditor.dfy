/**
  The in-place editors of the hook map (internal/cli/hooks_settings.go) and the two
  commands that drive them (internal/cli/hooks.go, hooks_uninstall.go), each tied to the
  function of the old map that says what it leaves.
*/
module HookEditor {
  import opened Basics
  import opened Json
  import opened HookEntries
  import opened HookConfig
  import opened HookSpecs
  import opened HookHistory

  /** One line of status: the event and matcher an entry of ours answers under, and what it runs. */
  datatype MarkerLoc = MarkerLoc(event: string, matcher: string, command: string)

  function Locate(event: string, found: seq<Located>): seq<MarkerLoc> {
    if found == [] then []
    else [MarkerLoc(event, found[0].matcher, if found[0].entry.Obj? then StringField(found[0].entry.fields, "command") else "")]
         + Locate(event, found[1..])
  }

  /** One line for every entry found, in order, with its matcher and its command as the JSON has it. */
  lemma {:induction false} LocatedEach(event: string, found: seq<Located>)
    ensures |Locate(event, found)| == |found|
    ensures forall i | 0 <= i < |found| ::
              var line, entry := Locate(event, found)[i], found[i].entry;
              line.event == event && line.matcher == found[i].matcher
              && line.command == if entry.Obj? && "command" in entry.fields && entry.fields["command"].Str? then entry.fields["command"].s else ""
  {
    if found != [] {
      LocatedEach(event, found[1..]);
      assert Locate(event, found)[1..] == Locate(event, found[1..]);
    }
  }

  /** The locations reported for one event, in report order. */
  function AtEvent(locs: seq<MarkerLoc>, event: string): seq<MarkerLoc> {
    if locs == [] then [] else (if locs[0].event == event then [locs[0]] else []) + AtEvent(locs[1..], event)
  }

  lemma {:induction false} AtEventAppend(x: seq<MarkerLoc>, y: seq<MarkerLoc>, event: string)
    ensures AtEvent(x + y, event) == AtEvent(x, event) + AtEvent(y, event)
  {
    if x == [] {
      assert x + y == y;
    } else {
      assert (x + y)[0] == x[0] && (x + y)[1..] == x[1..] + y;
      AtEventAppend(x[1..], y, event);
      var head := if x[0].event == event then [x[0]] else [];
      assert AtEvent(x + y, event) == head + AtEvent((x + y)[1..], event);
      assert head + (AtEvent(x[1..], event) + AtEvent(y, event)) == (head + AtEvent(x[1..], event)) + AtEvent(y, event);
    }
  }

  lemma {:induction false} LocateAppend(event: string, x: seq<Located>, y: seq<Located>)
    ensures Locate(event, x + y) == Locate(event, x) + Locate(event, y)
  {
    if x == [] {
      assert x + y == y;
    } else {
      assert (x + y)[0] == x[0] && (x + y)[1..] == x[1..] + y;
      LocateAppend(event, x[1..], y);
    }
  }

  lemma {:induction false} AllAtEvent(event: string, found: seq<Located>, other: string)
    ensures AtEvent(Locate(event, found), other) == if other == event then Locate(event, found) else []
  {
    if found != [] {
      AllAtEvent(event, found[1..], other);
    }
  }

  lemma MergeListHead(list: seq<Json>, i: nat, matcher: string, entry: Fields, marker: string)
    requires i < |list| && !GroupFor(list[i], matcher)
    ensures MergeList(list[i..], matcher, entry, marker) == [list[i]] + MergeList(list[i + 1..], matcher, entry, marker)
    ensures MergeWarning(list[i..], matcher, entry, marker) == MergeWarning(list[i + 1..], matcher, entry, marker)
  {
    hide MergeEntries, MergeEntriesWarning;
    assert list[i..][0] == list[i] && list[i..][1..] == list[i + 1..];
  }

  lemma {:induction false} MergeListSkips(list: seq<Json>, i: nat, matcher: string, entry: Fields, marker: string)
    requires i <= |list| && forall j | 0 <= j < i :: !GroupFor(list[j], matcher)
    ensures MergeList(list, matcher, entry, marker) == list[..i] + MergeList(list[i..], matcher, entry, marker)
    ensures MergeWarning(list, matcher, entry, marker) == MergeWarning(list[i..], matcher, entry, marker)
    decreases i
  {
    hide GroupFor, MergeList, MergeWarning;
    if i == 0 {
      assert list[0..] == list;
    } else {
      MergeListSkips(list, i - 1, matcher, entry, marker);
      MergeListHead(list, i - 1, matcher, entry, marker);
      assert list[..i - 1] + [list[i - 1]] == list[..i];
    }
  }

  lemma MergeEntriesHead(entries: seq<Json>, i: nat, entry: Fields, marker: string)
    requires i < |entries| && !Owned(entries[i], {marker})
    ensures MergeEntries(entries[i..], entry, marker) == [entries[i]] + MergeEntries(entries[i + 1..], entry, marker)
    ensures MergeEntriesWarning(entries[i..], entry, marker) == MergeEntriesWarning(entries[i + 1..], entry, marker)
  {
    hide MarkerOf;
    assert entries[i..][0] == entries[i] && entries[i..][1..] == entries[i + 1..];
  }

  lemma {:induction false} MergeEntriesSkips(entries: seq<Json>, i: nat, entry: Fields, marker: string)
    requires i <= |entries| && forall j | 0 <= j < i :: !Owned(entries[j], {marker})
    ensures MergeEntries(entries, entry, marker) == entries[..i] + MergeEntries(entries[i..], entry, marker)
    ensures MergeEntriesWarning(entries, entry, marker) == MergeEntriesWarning(entries[i..], entry, marker)
    decreases i
  {
    hide Owned, MergeEntries, MergeEntriesWarning;
    if i == 0 {
      assert entries[0..] == entries;
    } else {
      MergeEntriesSkips(entries, i - 1, entry, marker);
      MergeEntriesHead(entries, i - 1, entry, marker);
      assert entries[..i - 1] + [entries[i - 1]] == entries[..i];
    }
  }

  /** The first group with the matcher sits at `i`: the merge touches that element alone. */
  lemma MergeListAt(list: seq<Json>, i: nat, matcher: string, entry: Fields, marker: string)
    requires i < |list| && GroupFor(list[i], matcher) && forall j | 0 <= j < i :: !GroupFor(list[j], matcher)
    ensures var entries := ListField(list[i].fields, "hooks");
            MergeList(list, matcher, entry, marker) == list[i := Group(list[i], MergeEntries(entries, entry, marker))]
            && MergeWarning(list, matcher, entry, marker) == MergeEntriesWarning(entries, entry, marker)
  {
    hide MarkerOf;
    MergeListSkips(list, i, matcher, entry, marker);
    assert list[i..][0] == list[i] && list[i..][1..] == list[i + 1..];
  }

  lemma MergeListAtEnd(list: seq<Json>, matcher: string, entry: Fields, marker: string)
    requires forall j | 0 <= j < |list| :: !GroupFor(list[j], matcher)
    ensures MergeList(list, matcher, entry, marker) == list + [NewGroup(matcher, entry)]
    ensures MergeWarning(list, matcher, entry, marker) == None
  {
    MergeListSkips(list, |list|, matcher, entry, marker);
    assert list[..|list|] == list && list[|list|..] == [];
  }

  /** The warning a replaced entry gives. */
  function RewireWarning(h: Json, entry: Fields, marker: string): Option<Warning>
    requires h.Obj?
  {
    var command := StringField(h.fields, "command");
    if ("command" in entry && entry["command"] == Str(command)) || h == Obj(entry) then None
    else Some(Rewired(marker, command))
  }

  lemma MergeOfOwned(entries: seq<Json>, entry: Fields, marker: string)
    requires entries != [] && Owned(entries[0], {marker})
    ensures MergeEntries(entries, entry, marker) == [Obj(entry)] + entries[1..]
    ensures MergeEntriesWarning(entries, entry, marker) == RewireWarning(entries[0], entry, marker)
  {
    hide MarkerOf;
  }

  lemma MergeEntriesAt(entries: seq<Json>, i: nat, entry: Fields, marker: string)
    requires i < |entries| && Owned(entries[i], {marker}) && forall j | 0 <= j < i :: !Owned(entries[j], {marker})
    ensures MergeEntries(entries, entry, marker) == entries[i := Obj(entry)]
    ensures entries[i].Obj? && MergeEntriesWarning(entries, entry, marker) == RewireWarning(entries[i], entry, marker)
  {
    assert entries[i].Obj?;
    hide Owned, MergeEntries, MergeEntriesWarning, RewireWarning;
    MergeEntriesSkips(entries, i, entry, marker);
    assert entries[i..][0] == entries[i] && entries[i..][1..] == entries[i + 1..];
    MergeOfOwned(entries[i..], entry, marker);
    Splice(entries, i, Obj(entry));
  }

  lemma Splice(entries: seq<Json>, i: nat, entry: Json)
    requires i < |entries|
    ensures entries[..i] + ([entry] + entries[i + 1..]) == entries[i := entry]
  {
  }

  lemma MergeEntriesAtEnd(entries: seq<Json>, entry: Fields, marker: string)
    requires forall j | 0 <= j < |entries| :: !Owned(entries[j], {marker})
    ensures MergeEntries(entries, entry, marker) == entries + [Obj(entry)]
    ensures MergeEntriesWarning(entries, entry, marker) == None
  {
    hide Owned, MergeEntries, MergeEntriesWarning;
    MergeEntriesSkips(entries, |entries|, entry, marker);
    assert entries[..|entries|] == entries && entries[|entries|..] == [];
    MergeOfNothing(entry, marker);
  }

  lemma MergeOfNothing(entry: Fields, marker: string)
    ensures MergeEntries([], entry, marker) == [Obj(entry)] && MergeEntriesWarning([], entry, marker) == None
  {
  }

  lemma KeepStep(list: seq<Json>, i: nat, markers: set<string>)
    requires i < |list|
    ensures KeepEntries(list[i..], markers) == (if Owned(list[i], markers) then [] else [list[i]]) + KeepEntries(list[i + 1..], markers)
  {
    assert list[i..][0] == list[i] && list[i..][1..] == list[i + 1..];
  }

  /** `hm, ok := h.(map[string]any); ok && isMarkerEntry(hm, marker)` */
  method IsOurs(h: Json, marker: string) returns (ours: bool)
    ensures ours == Owned(h, {marker})
  {
    OwnedIsMarkerEntry(h, marker);
    ours := h.Obj? && IsMarkerEntry(h.fields, marker);
  }

  lemma Regroup<T>(done: seq<T>, head: seq<T>, rest: seq<T>)
    ensures done + (head + rest) == done + head + rest
  {
  }

  /** The inner filter loop of `retireMatchers` and `removeMarker`. */
  method DropMarked(entries: seq<Json>, marker: string) returns (rest: seq<Json>, removed: bool)
    ensures rest == KeepEntries(entries, {marker})
    ensures removed <==> exists h <- entries :: Owned(h, {marker})
  {
    hide Owned, KeepEntries;
    rest, removed := [], false;
    assert entries[0..] == entries;
    for i := 0 to |entries|
      invariant rest + KeepEntries(entries[i..], {marker}) == KeepEntries(entries, {marker})
      invariant removed <==> exists j | 0 <= j < i :: Owned(entries[j], {marker})
    {
      KeepStep(entries, i, {marker});
      Regroup(rest, [entries[i]], KeepEntries(entries[i + 1..], {marker}));
      var ours := IsOurs(entries[i], marker);
      if ours {
        removed := true;
      } else {
        rest := rest + [entries[i]];
      }
    }
    KeepNothing({marker});
    assert entries[|entries|..] == [];
  }

  lemma KeepNothing(markers: set<string>)
    ensures KeepEntries([], markers) == []
  {
  }

  /** `removeMarker` on one element of an event's list. */
  method DropFromElem(elem: Json, marker: string) returns (kept: seq<Json>, removed: bool)
    ensures kept == KeepElem(elem, {marker})
    ensures removed <==> With(ElemEntries(elem), {marker}) != []
  {
    hide MarkerOf;
    if !Nested(elem) {
      BareFound(elem, {marker});
      removed := IsOurs(elem, marker);
      kept := if removed then [] else [elem];
    } else {
      var items := elem.fields["hooks"].items;
      GroupFound(items, MatcherOf(elem.fields), {marker});
      var rest, found := DropMarked(items, marker);
      removed := found;
      kept := if rest == [] then [] else [Group(elem, rest)];
    }
  }

  /** The element loop of `removeMarker` over one event's list. */
  method DropFromList(list: seq<Json>, marker: string) returns (kept: seq<Json>, removed: bool)
    ensures kept == KeepList(list, {marker})
    ensures removed <==> With(Entries(list), {marker}) != []
  {
    hide MarkerOf;
    kept, removed := [], false;
    assert list[..0] == [];
    for i := 0 to |list|
      invariant kept == KeepList(list[..i], {marker})
      invariant removed <==> With(Entries(list[..i]), {marker}) != []
    {
      FoundStep(list, i, {marker});
      KeepListStep(list, i, {marker});
      var part, found := DropFromElem(list[i], marker);
      kept, removed := kept + part, removed || found;
    }
    assert list[..|list|] == list;
  }

  lemma KeepListStep(list: seq<Json>, i: nat, markers: set<string>)
    requires i < |list|
    ensures KeepList(list[..i + 1], markers) == KeepList(list[..i], markers) + KeepElem(list[i], markers)
  {
    hide MarkerOf;
    assert list[..i + 1] == list[..i] + [list[i]];
    KeepListAppend(list[..i], [list[i]], markers);
    KeepOne(list[i], markers);
  }

  lemma FoundStep(list: seq<Json>, i: nat, markers: set<string>)
    requires i < |list|
    ensures With(Entries(list[..i + 1]), markers) == With(Entries(list[..i]), markers) + With(ElemEntries(list[i]), markers)
  {
    hide MarkerOf;
    assert list[..i + 1] == list[..i] + [list[i]];
    EntriesAppend(list[..i], [list[i]]);
    assert [list[i]][1..] == [];
    assert Entries([list[i]]) == ElemEntries(list[i]);
    WithAppend(Entries(list[..i]), ElemEntries(list[i]), markers);
  }

  lemma BareFound(elem: Json, markers: set<string>)
    requires !Nested(elem)
    ensures With(ElemEntries(elem), markers) == if Owned(elem, markers) then [Located("", elem)] else []
  {
    if elem.Obj? {
      assert ElemEntries(elem)[1..] == [];
    }
  }

  lemma {:induction false} GroupFound(items: seq<Json>, matcher: string, markers: set<string>)
    ensures With(InGroup(items, matcher), markers) != [] <==> exists h <- items :: Owned(h, markers)
  {
    if items != [] {
      GroupFound(items[1..], matcher, markers);
      assert InGroup(items, matcher)[1..] == InGroup(items[1..], matcher);
      assert items[0] in items && (forall h <- items[1..] :: h in items) && forall h <- items :: h == items[0] || h in items[1..];
    }
  }

  /** One turn of the install loop leaves what the remaining turns lead to. */
  lemma InstallAdvances(before: Fields, after: Fields, client: Client, exe: string, specs: seq<HookSpec>, i: nat,
      changes: seq<HookSpec>, changed: bool)
    requires i < |specs|
    requires after == InstallStep(before, specs[i], SpecEntry(client, exe, specs[i]))
    requires changed == StepChanges(before, specs[i], SpecEntry(client, exe, specs[i]))
    ensures InstallAll(after, client, exe, specs[i + 1..]) == InstallAll(before, client, exe, specs[i..])
    ensures (if changed then changes + [specs[i]] else changes) + Changes(after, client, exe, specs[i + 1..])
            == changes + Changes(before, client, exe, specs[i..])
  {
    hide InstallStep, StepChanges, SpecEntry, Warned;
    assert specs[i..][0] == specs[i] && specs[i..][1..] == specs[i + 1..];
    Regroup(changes, if changed then [specs[i]] else [], Changes(after, client, exe, specs[i + 1..]));
  }

  lemma WarnedAdvances(before: Fields, after: Fields, client: Client, exe: string, specs: seq<HookSpec>, i: nat,
      warnings: seq<Warning>, warning: Option<Warning>)
    requires i < |specs|
    requires after == InstallStep(before, specs[i], SpecEntry(client, exe, specs[i]))
    requires warning == StepWarning(before, specs[i], SpecEntry(client, exe, specs[i]))
    ensures (if warning.Some? then warnings + [warning.value] else warnings) + Warned(after, client, exe, specs[i + 1..])
            == warnings + Warned(before, client, exe, specs[i..])
  {
    hide InstallStep, StepWarning, SpecEntry;
    assert specs[i..][0] == specs[i] && specs[i..][1..] == specs[i + 1..];
    Regroup(warnings, if warning.Some? then [warning.value] else [], Warned(after, client, exe, specs[i + 1..]));
  }

  predicate RetiresOne(elem: Json, marker: string, matchers: seq<string>) {
    elem.Obj? && MatcherOf(elem.fields) in matchers && exists h <- ListField(elem.fields, "hooks") :: Owned(h, {marker})
  }

  /** `retireMatchers` on one group. */
  method RetireFromElem(elem: Json, marker: string, matchers: seq<string>) returns (kept: seq<Json>, removed: bool)
    ensures kept == RetireElem(elem, marker, matchers)
    ensures removed == RetiresOne(elem, marker, matchers)
  {
    hide MarkerOf;
    if !elem.Obj? || MatcherOf(elem.fields) !in matchers {
      return [elem], false;
    }
    var rest, found := DropMarked(ListField(elem.fields, "hooks"), marker);
    removed := found;
    kept := if rest == [] then [] else [Group(elem, rest)];
  }

  lemma {:induction false} RetireListAppend(x: seq<Json>, y: seq<Json>, marker: string, matchers: seq<string>)
    ensures RetireList(x + y, marker, matchers) == RetireList(x, marker, matchers) + RetireList(y, marker, matchers)
  {
    hide MarkerOf;
    if x == [] {
      assert x + y == y;
    } else {
      assert (x + y)[0] == x[0] && (x + y)[1..] == x[1..] + y;
      RetireListAppend(x[1..], y, marker, matchers);
    }
  }

  lemma RetireListStep(groups: seq<Json>, g: nat, marker: string, matchers: seq<string>)
    requires g < |groups|
    ensures RetireList(groups[..g + 1], marker, matchers)
            == RetireList(groups[..g], marker, matchers) + RetireElem(groups[g], marker, matchers)
  {
    assert groups[..g + 1] == groups[..g] + [groups[g]];
    RetireListAppend(groups[..g], [groups[g]], marker, matchers);
    assert [groups[g]][1..] == [];
  }

  lemma RetiresStep(groups: seq<Json>, g: nat, marker: string, matchers: seq<string>)
    requires g < |groups|
    ensures Retires(groups[..g + 1], marker, matchers)
            <==> Retires(groups[..g], marker, matchers) || RetiresOne(groups[g], marker, matchers)
  {
    assert groups[..g + 1] == groups[..g] + [groups[g]];
    assert forall x <- groups[..g] :: x in groups[..g + 1];
    assert groups[g] in groups[..g + 1];
    assert forall x <- groups[..g + 1] :: x in groups[..g] || x == groups[g];
  }

  class HookFile {
    var hooks: Fields

    constructor (hooks: Fields)
      ensures this.hooks == hooks
    {
      this.hooks := hooks;
    }

    /** `mergeHook`: the whole new map, whether it changed, and the warning. */
    method MergeHook(event: string, matcher: string, entry: Fields, marker: string)
      returns (changed: bool, warning: Option<Warning>)
      modifies this
      ensures hooks == Merge(old(hooks), event, matcher, entry, marker)
      ensures changed == (hooks != old(hooks))
      ensures warning == MergeWarning(ListOf(old(hooks), event), matcher, entry, marker)
    {
      hide Owned, MergeList, MergeEntries, MergeWarning, MergeEntriesWarning;
      var groups := ListOf(hooks, event);
      for g := 0 to |groups|
        invariant hooks == old(hooks)
        invariant forall j | 0 <= j < g :: !GroupFor(groups[j], matcher)
      {
        if !groups[g].Obj? || MatcherOf(groups[g].fields) != matcher {
          continue;
        }
        MergeListAt(groups, g, matcher, entry, marker);
        var list := ListField(groups[g].fields, "hooks");
        for i := 0 to |list|
          invariant hooks == old(hooks)
          invariant forall j | 0 <= j < i :: !Owned(list[j], {marker})
        {
          var ours := IsOurs(list[i], marker);
          if !ours {
            continue;
          }
          MergeEntriesAt(list, i, entry, marker);
          var oldCommand := StringField(list[i].fields, "command");
          warning := None;
          if !("command" in entry && entry["command"] == Str(oldCommand)) {
            warning := Some(Rewired(marker, oldCommand));
          }
          if list[i].fields == entry {
            assert list[i := Obj(entry)] == list;
            assert groups[g].fields["hooks" := Arr(list)] == groups[g].fields;
            assert groups[g := groups[g]] == groups;
            assert hooks[event := hooks[event]] == hooks;
            return false, None;
          }
          var rewired := list[i := Obj(entry)];
          assert rewired[i] != list[i];
          Replace(event, groups, g, rewired);
          return true, warning;
        }
        // The group is there but holds no entry of ours.
        MergeEntriesAtEnd(list, entry, marker);
        assert |list + [Obj(entry)]| == |list| + 1;
        Replace(event, groups, g, list + [Obj(entry)]);
        return true, None;
      }
      // No group for this matcher yet.
      MergeListAtEnd(groups, matcher, entry, marker);
      hooks := hooks[event := Arr(groups + [NewGroup(matcher, entry)])];
      assert ListOf(hooks, event) != groups;
      return true, None;
    }

    /** Writes a group's new entries back through the tree. */
    method Replace(event: string, groups: seq<Json>, g: nat, entries: seq<Json>)
      requires groups == ListOf(hooks, event) && g < |groups| && groups[g].Obj?
      requires entries != ListField(groups[g].fields, "hooks")
      modifies this
      ensures hooks == old(hooks)[event := Arr(groups[g := Group(groups[g], entries)])]
      ensures hooks != old(hooks)
    {
      var updated := groups[g := Group(groups[g], entries)];
      hooks := hooks[event := Arr(updated)];
      assert ListField(updated[g].fields, "hooks") == entries;
      assert ListOf(hooks, event) == updated;
    }

    /** `retireMatchers`. */
    method RetireMatchers(event: string, marker: string, matchers: seq<string>) returns (removed: bool)
      modifies this
      ensures hooks == Retire(old(hooks), event, marker, matchers)
      ensures removed == Retires(ListOf(old(hooks), event), marker, matchers)
    {
      hide MarkerOf;
      if matchers == [] {
        return false;
      }
      var groups := ListOf(hooks, event);
      var kept: seq<Json> := [];
      removed := false;
      assert groups[..0] == [];
      for g := 0 to |groups|
        invariant hooks == old(hooks)
        invariant kept == RetireList(groups[..g], marker, matchers)
        invariant removed <==> Retires(groups[..g], marker, matchers)
      {
        RetiresStep(groups, g, marker, matchers);
        RetireListStep(groups, g, marker, matchers);
        var part, found := RetireFromElem(groups[g], marker, matchers);
        kept, removed := kept + part, removed || found;
      }
      assert groups[..|groups|] == groups;
      if removed {
        hooks := hooks[event := Arr(kept)];
      }
    }

    /** `removeMarker`, over the events in whatever order the map yields them. */
    method RemoveMarker(marker: string) returns (removed: bool)
      modifies this
      ensures hooks == Remove(old(hooks), {marker})
      ensures removed == FindsAny(old(hooks), {marker})
    {
      hide MarkerOf;
      removed := false;
      var pending := hooks.Keys;
      while pending != {}
        invariant pending <= old(hooks).Keys
        invariant forall e :: e in hooks <==> e in old(hooks) && (e in pending || KeepEvent(old(hooks)[e], {marker}).Some?)
        invariant forall e | e in hooks :: hooks[e] == if e in pending then old(hooks)[e] else KeepEvent(old(hooks)[e], {marker}).value
        invariant removed <==> exists e <- old(hooks) :: e !in pending && Found(old(hooks), e, {marker}) != []
        decreases pending
      {
        var event :| event in pending;
        pending := pending - {event};
        var raw := hooks[event];
        if !raw.Arr? || raw.items == [] {
          continue;
        }
        var kept, found := DropFromList(raw.items, marker);
        removed := removed || found;
        if kept == [] {
          hooks := hooks - {event};
        } else {
          hooks := hooks[event := Arr(kept)];
        }
      }
    }

    /** `findMarkerEntries`: for each event, exactly what it holds, in its order. */
    method FindMarkerEntries(marker: string) returns (out: seq<MarkerLoc>)
      ensures forall event :: AtEvent(out, event) == Locate(event, Found(hooks, event, {marker}))
    {
      out := [];
      var pending := hooks.Keys;
      while pending != {}
        invariant pending <= hooks.Keys
        invariant forall event :: AtEvent(out, event) == if event in pending then [] else Locate(event, Found(hooks, event, {marker}))
        decreases pending
      {
        var event :| event in pending;
        pending := pending - {event};
        var found := FindInList(event, ListOf(hooks, event), marker);
        forall other
          ensures AtEvent(out + found, other) == if other in pending then [] else Locate(other, Found(hooks, other, {marker}))
        {
          AtEventAppend(out, found, other);
          AllAtEvent(event, Found(hooks, event, {marker}), other);
        }
        out := out + found;
      }
    }

    /** One turn of the install loop, and the warning it prints. */
    method InstallSpec(client: Client, exe: string, sp: HookSpec) returns (changed: bool, warning: Option<Warning>)
      modifies this
      ensures hooks == InstallStep(old(hooks), sp, SpecEntry(client, exe, sp))
      ensures changed == StepChanges(old(hooks), sp, SpecEntry(client, exe, sp))
      ensures warning == StepWarning(old(hooks), sp, SpecEntry(client, exe, sp))
    {
      var entry := SpecEntry(client, exe, sp);
      var retired := RetireMatchers(sp.event, sp.marker, sp.supersedes);
      changed, warning := MergeHook(sp.event, sp.matcher, entry, sp.marker);
      changed := changed || retired;
    }

    /** The install loop: every spec moved off what it supersedes and merged in. */
    method InstallSpecs(client: Client, exe: string, specs: seq<HookSpec>) returns (changes: seq<HookSpec>, warnings: seq<Warning>)
      modifies this
      ensures hooks == InstallAll(old(hooks), client, exe, specs)
      ensures changes == Changes(old(hooks), client, exe, specs)
      ensures warnings == Warned(old(hooks), client, exe, specs)
    {
      hide InstallAll, Changes, Warned, InstallStep, StepChanges, StepWarning;
      changes, warnings := [], [];
      assert specs[0..] == specs;
      for i := 0 to |specs|
        invariant InstallAll(hooks, client, exe, specs[i..]) == InstallAll(old(hooks), client, exe, specs)
        invariant changes + Changes(hooks, client, exe, specs[i..]) == Changes(old(hooks), client, exe, specs)
        invariant warnings + Warned(hooks, client, exe, specs[i..]) == Warned(old(hooks), client, exe, specs)
      {
        ghost var before := hooks;
        var changed, warning := InstallSpec(client, exe, specs[i]);
        InstallAdvances(before, hooks, client, exe, specs, i, changes, changed);
        WarnedAdvances(before, hooks, client, exe, specs, i, warnings, warning);
        if warning.Some? {
          warnings := warnings + [warning.value];
        }
        if changed {
          changes := changes + [specs[i]];
        }
      }
      assert specs[|specs|..] == [];
      InstallOfNothing(hooks, client, exe);
    }

    /** The uninstall loop: markers one at a time amount to removing them all at once. */
    method RemoveMarkers(markers: seq<string>) returns (removed: seq<string>)
      requires markers != [] && forall i, j | 0 <= i < j < |markers| :: markers[i] != markers[j]
      modifies this
      ensures hooks == Remove(old(hooks), MarkerSet(markers))
      ensures removed == Reported(old(hooks), markers)
    {
      hide Remove, FindsAny, Found;
      removed := [];
      for i := 0 to |markers|
        invariant hooks == if i == 0 then old(hooks) else Remove(old(hooks), MarkerSet(markers[..i]))
        invariant removed == Reported(old(hooks), markers[..i])
      {
        ghost var before := hooks;
        var found := RemoveMarker(markers[i]);
        ghost var done := MarkerSet(markers[..i]);
        assert MarkerSet(markers[..i + 1]) == done + {markers[i]};
        assert markers[..i + 1][..i] == markers[..i];
        if i > 0 {
          RemoveTwice(old(hooks), done, {markers[i]});
          OthersStillFound(old(hooks), done, markers[i]);
        } else {
          assert done + {markers[i]} == {markers[i]};
        }
        if found {
          removed := removed + [markers[i]];
        }
      }
      assert markers[..|markers|] == markers;
    }
  }

  lemma InstallOfNothing(hooks: Fields, client: Client, exe: string)
    ensures InstallAll(hooks, client, exe, []) == hooks && Changes(hooks, client, exe, []) == [] && Warned(hooks, client, exe, []) == []
  {
  }

  /** The markers found, in the order they were asked for. */
  function Reported(hooks: Fields, markers: seq<string>): seq<string> {
    if markers == [] then []
    else
      var last := markers[|markers| - 1];
      Reported(hooks, markers[..|markers| - 1]) + (if FindsAny(hooks, {last}) then [last] else [])
  }

  /** Distinct markers are reported once each, in the order they were asked for. */
  lemma {:induction false} ReportedInOrder(hooks: Fields, markers: seq<string>, i: nat, j: nat)
    requires i < j < |Reported(hooks, markers)|
    ensures exists a, b :: 0 <= a < b < |markers| && markers[a] == Reported(hooks, markers)[i] && markers[b] == Reported(hooks, markers)[j]
  {
    hide FindsAny;
    var n := |markers| - 1;
    var front := Reported(hooks, markers[..n]);
    if j < |front| {
      ReportedInOrder(hooks, markers[..n], i, j);
      var a, b :| 0 <= a < b < n && markers[..n][a] == front[i] && markers[..n][b] == front[j];
      assert markers[a] == Reported(hooks, markers)[i] && markers[b] == Reported(hooks, markers)[j];
    } else {
      ReportedAreFound(hooks, markers[..n]);
      assert front[i] in front;
      var a :| 0 <= a < n && markers[..n][a] == front[i];
      assert markers[a] == Reported(hooks, markers)[i] && markers[n] == Reported(hooks, markers)[j];
    }
  }

  lemma {:induction false} ReportedAreFound(hooks: Fields, markers: seq<string>)
    ensures forall m :: m in Reported(hooks, markers) <==> m in markers && FindsAny(hooks, {m})
  {
    hide FindsAny;
    if markers != [] {
      var front, last := markers[..|markers| - 1], markers[|markers| - 1];
      ReportedAreFound(hooks, front);
      assert markers == front + [last];
    }
  }

  lemma OthersStillFound(hooks: Fields, removed: set<string>, marker: string)
    requires marker !in removed
    ensures FindsAny(Remove(hooks, removed), {marker}) <==> FindsAny(hooks, {marker})
  {
    forall event
      ensures Found(Remove(hooks, removed), event, {marker}) == Found(hooks, event, {marker})
    {
      RemovalIsExact(hooks, removed, event);
      assert {marker} - removed == {marker};
    }
    if FindsAny(hooks, {marker}) {
      var event :| event in hooks && Found(hooks, event, {marker}) != [];
      assert Found(Remove(hooks, removed), event, {marker}) != [];
      assert event in Remove(hooks, removed);
    }
  }

  /** `findMarkerEntries` on one element of an event's list. */
  method FindInElem(event: string, elem: Json, marker: string) returns (out: seq<MarkerLoc>)
    ensures out == Locate(event, With(ElemEntries(elem), {marker}))
  {
    hide MarkerOf;
    out := [];
    var entries := ElemEntries(elem);
    assert entries[..0] == [];
    for k := 0 to |entries|
      invariant out == Locate(event, With(entries[..k], {marker}))
    {
      var found := entries[k];
      assert entries[..k + 1] == entries[..k] + [found] && [found][1..] == [];
      WithAppend(entries[..k], [found], {marker});
      LocateAppend(event, With(entries[..k], {marker}), With([found], {marker}));
      var ours := IsOurs(found.entry, marker);
      if ours {
        assert With([found], {marker}) == [found];
        out := out + [MarkerLoc(event, found.matcher, StringField(found.entry.fields, "command"))];
      } else {
        assert With([found], {marker}) == [];
      }
    }
    assert entries[..|entries|] == entries;
  }

  method FindInList(event: string, list: seq<Json>, marker: string) returns (out: seq<MarkerLoc>)
    ensures out == Locate(event, With(Entries(list), {marker}))
  {
    out := [];
    assert list[..0] == [];
    for i := 0 to |list|
      invariant out == Locate(event, With(Entries(list[..i]), {marker}))
    {
      FoundStep(list, i, {marker});
      LocateAppend(event, With(Entries(list[..i]), {marker}), With(ElemEntries(list[i]), {marker}));
      var found := FindInElem(event, list[i], marker);
      out := out + found;
    }
    assert list[..|list|] == list;
  }

  /** A client's hook file, as the commands read and write it. */
  class SettingsFile {
    var doc: Fields

    constructor (doc: Fields)
      ensures this.doc == doc
    {
      this.doc := doc;
    }

    /** `hooks install`: the file afterwards, and what was reported; a refused install reports nothing. */
    method Install(client: Client, exe: string, sel: Selection, budget: string)
      returns (refused: bool, changes: seq<HookSpec>, warnings: seq<Warning>)
      requires !client.Cursor?
      modifies this
      ensures doc == Apply(old(doc), client, Op.Install(exe, sel, budget))
      ensures refused == Refused(client, sel)
      ensures var specs := if refused then [] else SpecsFor(sel, budget, "", ProviderFor(client));
              changes == Changes(HooksMap(old(doc)), client, exe, specs)
              && warnings == Warned(HooksMap(old(doc)), client, exe, specs)
    {
      hide InstallAll, Changes, Warned, SpecsFor;
      changes, warnings := [], [];
      refused := Refused(client, sel);
      if refused {
        InstallOfNothing(HooksMap(doc), client, exe);
        return;
      }
      var specs := SpecsForModeWithRoute(sel, budget, "", ProviderFor(client));
      var file := new HookFile(HooksMap(doc));
      changes, warnings := file.InstallSpecs(client, exe, specs);
      if changes != [] {
        doc := doc["hooks" := Obj(file.hooks)];
      }
    }

    /** `hooks uninstall`: the file afterwards, and which markers were reported removed. */
    method Uninstall(client: Client, sel: Selection) returns (removed: seq<string>)
      modifies this
      ensures doc == Apply(old(doc), client, Op.Uninstall(sel))
      ensures removed == Reported(HooksMap(old(doc)), SelectedMarkers(sel))
    {
      hide Remove, FindsAny, Found, Reported, SelectedMarkers;
      var markers := SelectedMarkers(sel);
      SelectedDistinct(sel);
      var file := new HookFile(HooksMap(doc));
      removed := file.RemoveMarkers(markers);
      ReportedAreFound(HooksMap(doc), markers);
      FindsSome(HooksMap(doc), markers);
      if removed == [] {
        assert forall m <- markers :: m !in removed;
        return;
      }
      assert removed[0] in removed;
      doc := if file.hooks == map[] then doc - {"hooks"} else doc["hooks" := Obj(file.hooks)];
    }
  }

  lemma SelectedDistinct(sel: Selection)
    ensures var ms := SelectedMarkers(sel); ms != [] && forall i, j | 0 <= i < j < |ms| :: ms[i] != ms[j]
  {
    assert |"coach-hook"| == |"read-guard"| == 10 && "coach-hook"[0] != "read-guard"[0];
    assert |"route-guard"| == 11 && |"boundary-guard"| == 14;
  }

  lemma FindsSome(hooks: Fields, markers: seq<string>)
    ensures FindsAny(hooks, MarkerSet(markers)) <==> exists m <- markers :: FindsAny(hooks, {m})
  {
    if FindsAny(hooks, MarkerSet(markers)) {
      var event :| event in hooks && Found(hooks, event, MarkerSet(markers)) != [];
      var m := SomeMarkerFound(Entries(ListOf(hooks, event)), MarkerSet(markers));
      assert Found(hooks, event, {m}) != [];
      assert FindsAny(hooks, {m});
    }
    if m, event :| m in markers && event in hooks && Found(hooks, event, {m}) != [] {
      MoreFound(Entries(ListOf(hooks, event)), m, MarkerSet(markers));
      assert Found(hooks, event, MarkerSet(markers)) != [];
    }
  }

  lemma {:induction false} MoreFound(entries: seq<Located>, m: string, markers: set<string>)
    requires m in markers && With(entries, {m}) != []
    ensures With(entries, markers) != []
  {
    if !Owned(entries[0].entry, {m}) {
      MoreFound(entries[1..], m, markers);
    }
  }
}
