/**
  What merging and retiring keep: the foreign part of a config, the one entry each
  (event, matcher, marker) may hold, and what an earlier step settled.
*/
module HookMerge {
  import opened Basics
  import opened Json
  import opened HookEntries
  import opened HookConfig

  /** An entry an install may write: it answers to its own marker. */
  predicate Answers(entry: Fields, marker: string) { MarkerOf(entry) == Some(marker) }

  // ----- the foreign part --------------------------------------------------

  lemma {:induction false} MergedEntriesKept(entries: seq<Json>, entry: Fields, marker: string, markers: set<string>)
    requires Answers(entry, marker) && marker in markers
    ensures KeepEntries(MergeEntries(entries, entry, marker), markers) == KeepEntries(entries, markers)
  {
    if entries == [] {
      assert [Obj(entry)][1..] == [];
    } else if Owned(entries[0], {marker}) {
      assert ([Obj(entry)] + entries[1..])[1..] == entries[1..];
    } else {
      MergedEntriesKept(entries[1..], entry, marker, markers);
      assert ([entries[0]] + MergeEntries(entries[1..], entry, marker))[1..] == MergeEntries(entries[1..], entry, marker);
    }
  }

  /** The element a merge lands on, if any, is a group or is itself removed by an uninstall. */
  predicate LandsSafely(list: seq<Json>, matcher: string, markers: set<string>) {
    if list == [] then true
    else if GroupFor(list[0], matcher) then Nested(list[0]) || Owned(list[0], markers)
    else LandsSafely(list[1..], matcher, markers)
  }

  lemma KeepMergedGroup(elem: Json, entry: Fields, marker: string, markers: set<string>)
    requires elem.Obj? && Answers(entry, marker) && marker in markers
    ensures var merged := Group(elem, MergeEntries(ListField(elem.fields, "hooks"), entry, marker));
            if Nested(elem) || Owned(elem, markers) then KeepElem(merged, markers) == KeepElem(elem, markers)
            else KeepElem(merged, markers) == [] && KeepElem(elem, markers) == [elem]
  {
    assert KeepEntries([], markers) == [];
    hide MarkerOf, KeepEntries, MergeEntries, Answers;
    var items := ListField(elem.fields, "hooks");
    var merged := MergeEntries(items, entry, marker);
    MergedEntriesKept(items, entry, marker, markers);
    var kept := KeepEntries(items, markers);
    assert elem.fields["hooks" := Arr(merged)]["hooks" := Arr(kept)] == elem.fields["hooks" := Arr(kept)];
  }

  /** A merge is invisible once the markers are removed, exactly when it lands safely. */
  lemma {:induction false} MergedListKept(list: seq<Json>, matcher: string, entry: Fields, marker: string, markers: set<string>)
    requires Answers(entry, marker) && marker in markers
    ensures LandsSafely(list, matcher, markers) ==>
              KeepList(MergeList(list, matcher, entry, marker), markers) == KeepList(list, markers)
    ensures !LandsSafely(list, matcher, markers) ==>
              |KeepList(MergeList(list, matcher, entry, marker), markers)| < |KeepList(list, markers)|
  {
    var merged := MergeList(list, matcher, entry, marker);
    if list == [] {
      var created := NewGroup(matcher, entry);
      assert created.fields["hooks"].items == [Obj(entry)];
      MergedEntriesKept([], entry, marker, markers);
      KeepOne(created, markers);
    } else if GroupFor(list[0], matcher) {
      KeepMergedGroup(list[0], entry, marker, markers);
      assert merged[1..] == list[1..];
    } else {
      MergedListKept(list[1..], matcher, entry, marker, markers);
      assert merged[1..] == MergeList(list[1..], matcher, entry, marker);
    }
  }

  /**
    `mergeHook` followed by an uninstall, on any config at all: the uninstall takes back
    exactly what the merge did if and only if the event was absent, or held a
    non-empty list whose first element with the matcher (if any) is a real group or one
    the uninstall removes anyway. Otherwise something foreign is lost: a value that
    is not a list is overwritten, an empty list's key is deleted, a bare foreign entry with that
    matcher is turned into a group and dropped.
  */
  lemma MergeUndoneExactly(hooks: Fields, event: string, matcher: string, entry: Fields, marker: string, markers: set<string>)
    requires Answers(entry, marker) && marker in markers
    ensures Remove(Merge(hooks, event, matcher, entry, marker), markers) == Remove(hooks, markers)
            <==> event !in hooks || (hooks[event].Arr? && hooks[event].items != [] && LandsSafely(hooks[event].items, matcher, markers))
  {
    var merged := Merge(hooks, event, matcher, entry, marker);
    var list := ListOf(hooks, event);
    MergedListKept(list, matcher, entry, marker, markers);
    SameElsewhere(hooks, merged, event, markers);
    if event in hooks && !(hooks[event].Arr? && list != []) {
      assert event in Remove(hooks, markers);
      assert KeepEvent(merged[event], markers).None?;
      assert event !in Remove(merged, markers);
    } else if event in hooks && !LandsSafely(list, matcher, markers) {
      assert KeepEvent(merged[event], markers) != KeepEvent(hooks[event], markers);
      assert event in Remove(hooks, markers);
    }
  }

  /** The loss itself: any bare foreign entry under an event, once merged into, is gone after the uninstall. */
  lemma BareEntryIsLost(event: string, foreign: Fields, entry: Fields, marker: string, markers: set<string>)
    requires Answers(entry, marker) && marker in markers
    requires "hooks" !in foreign && MatcherOf(foreign) == "" && !Owned(Obj(foreign), markers)
    ensures var hooks: Fields := map[event := Arr([Obj(foreign)])];
            Remove(hooks, markers) == hooks && Remove(Merge(hooks, event, "", entry, marker), markers) == map[]
  {
    hide MarkerOf;
    var list := [Obj(foreign)];
    var hooks: Fields := map[event := Arr(list)];
    var merged := Group(Obj(foreign), MergeEntries([], entry, marker));
    assert list[1..] == [] && MergeList(list, "", entry, marker) == [merged];
    KeepMergedGroup(Obj(foreign), entry, marker, markers);
    KeepOne(Obj(foreign), markers);
    KeepOne(merged, markers);
  }

  /** Two configs that differ at one event agree after a removal if that event does. */
  lemma SameElsewhere(a: Fields, b: Fields, event: string, markers: set<string>)
    requires forall e :: e != event ==> (e in a <==> e in b) && (e in a ==> a[e] == b[e])
    requires event in b
    ensures (if event in a then KeepEvent(a[event], markers) else None) == KeepEvent(b[event], markers)
            ==> Remove(a, markers) == Remove(b, markers)
  {
    hide MarkerOf;
  }

  /** Every element that one of `matchers` could select is a group. */
  predicate Grouped(list: seq<Json>, matchers: set<string>) {
    forall i | 0 <= i < |list| :: list[i].Obj? && MatcherOf(list[i].fields) in matchers ==> Nested(list[i])
  }

  lemma {:induction false} GroupedLandsSafely(list: seq<Json>, matcher: string, matchers: set<string>, markers: set<string>)
    requires Grouped(list, matchers) && matcher in matchers
    ensures LandsSafely(list, matcher, markers)
  {
    if list != [] {
      GroupedLandsSafely(list[1..], matcher, matchers, markers);
    }
  }

  lemma {:induction false} GroupedMerge(list: seq<Json>, matcher: string, entry: Fields, marker: string, matchers: set<string>)
    requires Grouped(list, matchers)
    ensures Grouped(MergeList(list, matcher, entry, marker), matchers)
  {
    if list != [] && !GroupFor(list[0], matcher) {
      GroupedMerge(list[1..], matcher, entry, marker, matchers);
      var rest := MergeList(list[1..], matcher, entry, marker);
      forall i | 0 <= i < |[list[0]] + rest|
        ensures var e := ([list[0]] + rest)[i]; e.Obj? && MatcherOf(e.fields) in matchers ==> Nested(e)
      {
        assert i > 0 ==> ([list[0]] + rest)[i] == rest[i - 1];
      }
    }
  }

  lemma GroupedConcat(x: seq<Json>, y: seq<Json>, matchers: set<string>)
    requires Grouped(x, matchers) && Grouped(y, matchers)
    ensures Grouped(x + y, matchers)
  {
  }

  lemma {:induction false} GroupedRetire(list: seq<Json>, marker: string, retired: seq<string>, matchers: set<string>)
    requires Grouped(list, matchers)
    ensures Grouped(RetireList(list, marker, retired), matchers)
  {
    if list != [] {
      GroupedRetire(list[1..], marker, retired, matchers);
      GroupedConcat(RetireElem(list[0], marker, retired), RetireList(list[1..], marker, retired), matchers);
    }
  }

  lemma {:induction false} GroupedKeep(list: seq<Json>, markers: set<string>, matchers: set<string>)
    requires Grouped(list, matchers)
    ensures Grouped(KeepList(list, markers), matchers)
  {
    if list != [] {
      GroupedKeep(list[1..], markers, matchers);
      GroupedConcat(KeepElem(list[0], markers), KeepList(list[1..], markers), matchers);
    }
  }

  lemma KeepRetiredElem(elem: Json, marker: string, retired: seq<string>, markers: set<string>)
    requires marker in markers
    requires elem.Obj? && MatcherOf(elem.fields) in retired ==> Nested(elem)
    ensures KeepList(RetireElem(elem, marker, retired), markers) == KeepElem(elem, markers)
  {
    hide MarkerOf;
    if elem.Obj? && MatcherOf(elem.fields) in retired {
      var items := ListField(elem.fields, "hooks");
      var rest := KeepEntries(items, {marker});
      KeepEntriesTwice(items, {marker}, markers);
      assert {marker} + markers == markers;
      if rest != [] {
        KeepOne(Group(elem, rest), markers);
        var kept := KeepEntries(items, markers);
        assert elem.fields["hooks" := Arr(rest)]["hooks" := Arr(kept)] == elem.fields["hooks" := Arr(kept)];
      }
    } else {
      KeepOne(elem, markers);
    }
  }

  lemma {:induction false} RetiredListKept(list: seq<Json>, marker: string, retired: seq<string>,
      markers: set<string>, matchers: set<string>)
    requires marker in markers && Grouped(list, matchers) && forall i | 0 <= i < |retired| :: retired[i] in matchers
    ensures KeepList(RetireList(list, marker, retired), markers) == KeepList(list, markers)
  {
    hide MarkerOf;
    if list != [] {
      RetiredListKept(list[1..], marker, retired, markers, matchers);
      KeepRetiredElem(list[0], marker, retired, markers);
      KeepListAppend(RetireElem(list[0], marker, retired), RetireList(list[1..], marker, retired), markers);
    }
  }

  // ----- the entry of one (matcher, marker) --------------------------------

  function Under(entries: seq<Located>, matcher: string): seq<Located> {
    if entries == [] then []
    else (if entries[0].matcher == matcher then [entries[0]] else []) + Under(entries[1..], matcher)
  }

  /** The entries with one of the markers that status reports under the matcher. */
  function OwnElem(elem: Json, matcher: string, markers: set<string>): seq<Located> {
    Under(With(ElemEntries(elem), markers), matcher)
  }

  function Own(list: seq<Json>, matcher: string, markers: set<string>): seq<Located> {
    if list == [] then [] else OwnElem(list[0], matcher, markers) + Own(list[1..], matcher, markers)
  }

  lemma UnderCons(head: Located, rest: seq<Located>, matcher: string)
    ensures Under([head] + rest, matcher) == (if head.matcher == matcher then [head] else []) + Under(rest, matcher)
  {
    assert ([head] + rest)[0] == head && ([head] + rest)[1..] == rest;
  }

  lemma {:induction false} UnderAppend(x: seq<Located>, y: seq<Located>, matcher: string)
    ensures Under(x + y, matcher) == Under(x, matcher) + Under(y, matcher)
  {
    if x == [] {
      assert x + y == y;
    } else {
      hide Under;
      UnderAppend(x[1..], y, matcher);
      UnderCons(x[0], x[1..], matcher);
      UnderCons(x[0], x[1..] + y, matcher);
      assert x == [x[0]] + x[1..] && x + y == [x[0]] + (x[1..] + y);
    }
  }

  /** `Own` is `findMarkerEntries` restricted to one matcher. */
  lemma {:induction false} OwnIsFound(list: seq<Json>, matcher: string, markers: set<string>)
    ensures Own(list, matcher, markers) == Under(With(Entries(list), markers), matcher)
  {
    hide MarkerOf;
    if list != [] {
      OwnIsFound(list[1..], matcher, markers);
      WithAppend(ElemEntries(list[0]), Entries(list[1..]), markers);
      UnderAppend(With(ElemEntries(list[0]), markers), With(Entries(list[1..]), markers), matcher);
    }
  }

  lemma {:induction false} OwnAppend(x: seq<Json>, y: seq<Json>, matcher: string, markers: set<string>)
    ensures Own(x + y, matcher, markers) == Own(x, matcher, markers) + Own(y, matcher, markers)
  {
    hide MarkerOf;
    if x == [] {
      assert x + y == y;
    } else {
      assert (x + y)[0] == x[0] && (x + y)[1..] == x[1..] + y;
      OwnAppend(x[1..], y, matcher, markers);
    }
  }

  lemma OwnOne(elem: Json, matcher: string, markers: set<string>)
    ensures Own([elem], matcher, markers) == OwnElem(elem, matcher, markers)
  {
    assert [elem][1..] == [];
  }

  /** The entries of a group that carry a marker. */
  function Marked(entries: seq<Json>, markers: set<string>): seq<Json> {
    if entries == [] then []
    else (if Owned(entries[0], markers) then [entries[0]] else []) + Marked(entries[1..], markers)
  }

  lemma {:induction false} MarkedInGroup(entries: seq<Json>, under: string, matcher: string, markers: set<string>)
    ensures Under(With(InGroup(entries, under), markers), matcher)
            == if under == matcher then InGroup(Marked(entries, markers), under) else []
  {
    hide MarkerOf;
    if entries != [] {
      MarkedInGroup(entries[1..], under, matcher, markers);
      assert InGroup(entries, under)[1..] == InGroup(entries[1..], under);
      if Owned(entries[0], markers) {
        var head := Located(under, entries[0]);
        assert With(InGroup(entries, under), markers) == [head] + With(InGroup(entries[1..], under), markers);
        assert ([head] + With(InGroup(entries[1..], under), markers))[1..] == With(InGroup(entries[1..], under), markers);
        assert ([entries[0]] + Marked(entries[1..], markers))[1..] == Marked(entries[1..], markers);
      } else {
        assert With(InGroup(entries, under), markers) == With(InGroup(entries[1..], under), markers);
        assert Marked(entries, markers) == Marked(entries[1..], markers);
      }
    }
  }

  lemma OwnOfGroup(elem: Json, matcher: string, markers: set<string>)
    requires Nested(elem)
    ensures OwnElem(elem, matcher, markers)
            == if MatcherOf(elem.fields) == matcher then InGroup(Marked(elem.fields["hooks"].items, markers), matcher) else []
  {
    MarkedInGroup(elem.fields["hooks"].items, MatcherOf(elem.fields), matcher, markers);
  }

  lemma {:induction false} OwnKept(list: seq<Json>, matcher: string, removed: set<string>, markers: set<string>)
    ensures Own(KeepList(list, removed), matcher, markers) == Own(list, matcher, markers - removed)
  {
    hide MarkerOf;
    OwnIsFound(KeepList(list, removed), matcher, markers);
    OwnIsFound(list, matcher, markers - removed);
    EntriesKept(list, removed);
    WithOfWithout(Entries(list), removed, markers);
  }

  lemma {:induction false} FewerMarkers(list: seq<Json>, matcher: string, some: set<string>, all: set<string>)
    requires some <= all && Own(list, matcher, all) == []
    ensures Own(list, matcher, some) == []
  {
    OwnIsFound(list, matcher, some);
    OwnIsFound(list, matcher, all);
    FewerFound(Entries(list), matcher, some, all);
  }

  lemma {:induction false} FewerFound(entries: seq<Located>, matcher: string, some: set<string>, all: set<string>)
    requires some <= all && Under(With(entries, all), matcher) == []
    ensures Under(With(entries, some), matcher) == []
  {
    hide MarkerOf;
    if entries != [] {
      UnderAppend(if Owned(entries[0].entry, all) then [entries[0]] else [], With(entries[1..], all), matcher);
      UnderAppend(if Owned(entries[0].entry, some) then [entries[0]] else [], With(entries[1..], some), matcher);
      FewerFound(entries[1..], matcher, some, all);
    }
  }

  /**
    Owned entries sit only in the first group of their matcher, never bare in the list.
    This is what makes "the first group with the matcher" the right place to look.
  */
  predicate Sole(list: seq<Json>, all: set<string>) {
    list == [] ||
    (Sole(list[1..], all) &&
     (list[0].Obj? ==>
        if Nested(list[0]) then Own(list[1..], MatcherOf(list[0].fields), all) == []
        else !Owned(list[0], all)))
  }

  lemma {:induction false} MergedMarked(entries: seq<Json>, entry: Fields, marker: string, other: string)
    requires Answers(entry, marker) && |Marked(entries, {marker})| <= 1
    ensures Marked(MergeEntries(entries, entry, marker), {other})
            == if other == marker then [Obj(entry)] else Marked(entries, {other})
  {
    if entries == [] {
      assert [Obj(entry)][1..] == [];
    } else if Owned(entries[0], {marker}) {
      assert ([Obj(entry)] + entries[1..])[1..] == entries[1..];
      assert Marked(entries, {marker}) == [entries[0]] + Marked(entries[1..], {marker});
    } else {
      assert Marked(entries, {marker}) == Marked(entries[1..], {marker});
      MergedMarked(entries[1..], entry, marker, other);
      assert ([entries[0]] + MergeEntries(entries[1..], entry, marker))[1..] == MergeEntries(entries[1..], entry, marker);
    }
  }

  lemma {:induction false} InGroupLength(entries: seq<Json>, matcher: string)
    ensures |InGroup(entries, matcher)| == |entries|
  {
    if entries != [] {
      InGroupLength(entries[1..], matcher);
    }
  }

  lemma OwnOfNewGroup(under: string, entry: Fields, marker: string, matcher: string, markers: set<string>)
    requires Answers(entry, marker)
    ensures OwnElem(NewGroup(under, entry), matcher, markers)
            == if under == matcher && marker in markers then [Located(matcher, Obj(entry))] else []
  {
    OwnOfGroup(NewGroup(under, entry), matcher, markers);
    assert NewGroup(under, entry).fields["hooks"].items == [Obj(entry)];
    assert [Obj(entry)][1..] == [];
  }

  /** A merge leaves the other matchers' entries alone, whatever the markers. */
  lemma {:induction false} MergeElsewhere(list: seq<Json>, under: string, entry: Fields, marker: string,
      matcher: string, markers: set<string>, matchers: set<string>)
    requires Answers(entry, marker) && Grouped(list, matchers) && under in matchers && matcher != under
    ensures Own(MergeList(list, under, entry, marker), matcher, markers) == Own(list, matcher, markers)
  {
    var merged := MergeList(list, under, entry, marker);
    if list == [] {
      OwnOne(NewGroup(under, entry), matcher, markers);
      OwnOfNewGroup(under, entry, marker, matcher, markers);
    } else if GroupFor(list[0], under) {
      OwnOfGroup(list[0], matcher, markers);
      OwnOfGroup(merged[0], matcher, markers);
      assert merged[1..] == list[1..];
    } else {
      MergeElsewhere(list[1..], under, entry, marker, matcher, markers, matchers);
      assert merged[1..] == MergeList(list[1..], under, entry, marker);
    }
  }

  lemma MergeSetsInGroup(elem: Json, matcher: string, entry: Fields, marker: string, other: string)
    requires Answers(entry, marker) && Nested(elem) && MatcherOf(elem.fields) == matcher
    requires |OwnElem(elem, matcher, {marker})| <= 1
    ensures OwnElem(Group(elem, MergeEntries(elem.fields["hooks"].items, entry, marker)), matcher, {other})
            == if other == marker then [Located(matcher, Obj(entry))] else OwnElem(elem, matcher, {other})
  {
    var items := elem.fields["hooks"].items;
    OwnOfGroup(elem, matcher, {other});
    OwnOfGroup(elem, matcher, {marker});
    OwnOfGroup(Group(elem, MergeEntries(items, entry, marker)), matcher, {other});
    InGroupLength(Marked(items, {marker}), matcher);
    MergedMarked(items, entry, marker, other);
    assert [Obj(entry)][1..] == [];
  }

  /** Under its own matcher a merge sets the marker's entry and leaves the other markers'. */
  lemma {:induction false} MergeSets(list: seq<Json>, matcher: string, entry: Fields, marker: string, other: string,
      matchers: set<string>, all: set<string>)
    requires Answers(entry, marker) && marker in all && other in all
    requires Grouped(list, matchers) && matcher in matchers && Sole(list, all)
    requires |Own(list, matcher, {marker})| <= 1
    ensures Own(MergeList(list, matcher, entry, marker), matcher, {other})
            == if other == marker then [Located(matcher, Obj(entry))] else Own(list, matcher, {other})
  {
    var merged := MergeList(list, matcher, entry, marker);
    if list == [] {
      OwnOne(NewGroup(matcher, entry), matcher, {other});
      OwnOfNewGroup(matcher, entry, marker, matcher, {other});
    } else if GroupFor(list[0], matcher) {
      assert merged[1..] == list[1..];
      FewerMarkers(list[1..], matcher, {other}, all);
      FewerMarkers(list[1..], matcher, {marker}, all);
      MergeSetsInGroup(list[0], matcher, entry, marker, other);
    } else {
      assert merged[1..] == MergeList(list[1..], matcher, entry, marker);
      NothingElsewhere(list[0], matcher, {other}, all);
      NothingElsewhere(list[0], matcher, {marker}, all);
      MergeSets(list[1..], matcher, entry, marker, other, matchers, all);
    }
  }

  /** An element that is not the matcher's group holds nothing of ours under it. */
  lemma NothingElsewhere(elem: Json, matcher: string, markers: set<string>, all: set<string>)
    requires !GroupFor(elem, matcher) && markers <= all
    requires elem.Obj? && !Nested(elem) ==> !Owned(elem, all)
    ensures OwnElem(elem, matcher, markers) == []
  {
    hide MarkerOf;
    if Nested(elem) {
      OwnOfGroup(elem, matcher, markers);
    } else if elem.Obj? {
      BareUnowned(elem, all, markers);
    }
  }

  lemma BareUnowned(elem: Json, markers: set<string>, fewer: set<string>)
    requires !Nested(elem) && !Owned(elem, markers) && fewer <= markers
    ensures With(ElemEntries(elem), fewer) == []
  {
    hide MarkerOf;
    if elem.Obj? {
      assert ElemEntries(elem)[1..] == [];
    }
  }

  lemma {:induction false} SoleMerge(list: seq<Json>, matcher: string, entry: Fields, marker: string,
      matchers: set<string>, all: set<string>)
    requires Answers(entry, marker) && Grouped(list, matchers) && matcher in matchers && Sole(list, all)
    ensures Sole(MergeList(list, matcher, entry, marker), all)
  {
    hide MarkerOf;
    var merged := MergeList(list, matcher, entry, marker);
    if list != [] && GroupFor(list[0], matcher) {
      assert merged[1..] == list[1..];
    } else if list != [] {
      SoleMerge(list[1..], matcher, entry, marker, matchers, all);
      assert merged[1..] == MergeList(list[1..], matcher, entry, marker);
      if Nested(list[0]) {
        MergeElsewhere(list[1..], matcher, entry, marker, MatcherOf(list[0].fields), all, matchers);
      }
    }
  }

  lemma KeepElemShape(elem: Json, markers: set<string>)
    ensures var r := KeepElem(elem, markers);
            r == [] || r == [elem] ||
            (|r| == 1 && Nested(elem) && Nested(r[0]) && MatcherOf(r[0].fields) == MatcherOf(elem.fields))
  {
  }

  lemma {:induction false} SoleKeep(list: seq<Json>, markers: set<string>, all: set<string>)
    requires Sole(list, all)
    ensures Sole(KeepList(list, markers), all)
  {
    hide MarkerOf;
    if list != [] {
      SoleKeep(list[1..], markers, all);
      KeepElemShape(list[0], markers);
      var head, rest := KeepElem(list[0], markers), KeepList(list[1..], markers);
      if head == [] {
        assert KeepList(list, markers) == rest;
      } else {
        if Nested(list[0]) {
          KeepLeavesNone(list[1..], markers, MatcherOf(list[0].fields), all);
        }
        SoleCons(head[0], rest, all);
        assert head == [head[0]];
      }
    }
  }

  lemma KeepLeavesNone(list: seq<Json>, markers: set<string>, matcher: string, all: set<string>)
    requires Own(list, matcher, all) == []
    ensures Own(KeepList(list, markers), matcher, all) == []
  {
    OwnKept(list, matcher, markers, all);
    FewerMarkers(list, matcher, all - markers, all);
  }

  lemma OwnedByOthers(entry: Json, removed: set<string>, markers: set<string>)
    ensures Owned(entry, markers - removed) <==> Owned(entry, markers) && !Owned(entry, removed)
  {
  }

  lemma {:induction false} MarkedKept(entries: seq<Json>, removed: set<string>, markers: set<string>)
    ensures Marked(KeepEntries(entries, removed), markers) == Marked(entries, markers - removed)
  {
    hide Owned;
    if entries != [] {
      MarkedKept(entries[1..], removed, markers);
      OwnedByOthers(entries[0], removed, markers);
      if !Owned(entries[0], removed) {
        assert ([entries[0]] + KeepEntries(entries[1..], removed))[1..] == KeepEntries(entries[1..], removed);
      } else {
        assert KeepEntries(entries, removed) == KeepEntries(entries[1..], removed);
      }
    }
  }

  lemma OwnOfRetired(elem: Json, marker: string, retired: seq<string>, matcher: string, markers: set<string>)
    requires elem.Obj? && MatcherOf(elem.fields) in retired ==> Nested(elem)
    requires !Nested(elem) ==> !Owned(elem, markers)
    ensures Own(RetireElem(elem, marker, retired), matcher, markers)
            == OwnElem(elem, matcher, if matcher in retired then markers - {marker} else markers)
  {
    hide Owned, KeepEntries, With, ElemEntries;
    if elem.Obj? && MatcherOf(elem.fields) in retired {
      var items := elem.fields["hooks"].items;
      var rest := KeepEntries(items, {marker});
      MarkedKept(items, {marker}, markers);
      OwnOfGroup(elem, matcher, markers);
      OwnOfGroup(elem, matcher, markers - {marker});
      if rest != [] {
        OwnOne(Group(elem, rest), matcher, markers);
        OwnOfGroup(Group(elem, rest), matcher, markers);
      }
    } else {
      OwnOne(elem, matcher, markers);
      if Nested(elem) {
        OwnOfGroup(elem, matcher, markers);
        OwnOfGroup(elem, matcher, markers - {marker});
      } else {
        BareUnowned(elem, markers, markers);
        BareUnowned(elem, markers, markers - {marker});
      }
    }
  }

  /** A retirement takes the marker's entries from the retired matchers and nothing else. */
  lemma {:induction false} RetireTakes(list: seq<Json>, marker: string, retired: seq<string>, matcher: string,
      markers: set<string>, matchers: set<string>, all: set<string>)
    requires Grouped(list, matchers) && (forall i | 0 <= i < |retired| :: retired[i] in matchers)
    requires Sole(list, all) && markers <= all
    ensures Own(RetireList(list, marker, retired), matcher, markers)
            == Own(list, matcher, if matcher in retired then markers - {marker} else markers)
  {
    hide MarkerOf;
    if list != [] {
      RetireTakes(list[1..], marker, retired, matcher, markers, matchers, all);
      OwnOfRetired(list[0], marker, retired, matcher, markers);
      OwnAppend(RetireElem(list[0], marker, retired), RetireList(list[1..], marker, retired), matcher, markers);
    }
  }

  lemma RetireElemShape(elem: Json, marker: string, retired: seq<string>)
    requires elem.Obj? && MatcherOf(elem.fields) in retired ==> Nested(elem)
    ensures var r := RetireElem(elem, marker, retired);
            r == [] || r == [elem] ||
            (|r| == 1 && Nested(elem) && Nested(r[0]) && MatcherOf(r[0].fields) == MatcherOf(elem.fields))
  {
  }

  lemma {:induction false} SoleRetire(list: seq<Json>, marker: string, retired: seq<string>, matchers: set<string>,
      all: set<string>)
    requires Grouped(list, matchers) && (forall i | 0 <= i < |retired| :: retired[i] in matchers)
    requires Sole(list, all)
    ensures Sole(RetireList(list, marker, retired), all)
  {
    hide MarkerOf;
    if list != [] {
      SoleRetire(list[1..], marker, retired, matchers, all);
      RetireElemShape(list[0], marker, retired);
      var head, rest := RetireElem(list[0], marker, retired), RetireList(list[1..], marker, retired);
      if head == [] {
        assert RetireList(list, marker, retired) == rest;
      } else {
        if Nested(list[0]) {
          RetireLeavesNone(list[1..], marker, retired, MatcherOf(list[0].fields), matchers, all);
        }
        SoleCons(head[0], rest, all);
        assert head == [head[0]];
      }
    }
  }

  lemma SoleCons(head: Json, rest: seq<Json>, all: set<string>)
    requires Sole(rest, all)
    requires head.Obj? ==> if Nested(head) then Own(rest, MatcherOf(head.fields), all) == [] else !Owned(head, all)
    ensures Sole([head] + rest, all)
  {
    assert ([head] + rest)[1..] == rest;
  }

  lemma RetireLeavesNone(list: seq<Json>, marker: string, retired: seq<string>, matcher: string,
      matchers: set<string>, all: set<string>)
    requires Grouped(list, matchers) && (forall i | 0 <= i < |retired| :: retired[i] in matchers)
    requires Sole(list, all) && Own(list, matcher, all) == []
    ensures Own(RetireList(list, marker, retired), matcher, all) == []
  {
    RetireTakes(list, marker, retired, matcher, all, matchers, all);
    FewerMarkers(list, matcher, all - {marker}, all);
  }

  /**
    What a retirement does to one element, whatever it is: an object under a retired matcher keeps the
    entries the marker does not own and goes when none is left, and anything else stays.
  */
  lemma RetiredElemExactly(elem: Json, marker: string, retired: seq<string>)
    ensures var r := RetireElem(elem, marker, retired);
            var under := elem.Obj? && MatcherOf(elem.fields) in retired;
            (!under ==> r == [elem])
            && (under ==> (r == [] <==> forall h <- ListField(elem.fields, "hooks") :: Owned(h, {marker})))
            && (under && r != [] ==>
                  |r| == 1 && r[0].Obj? && r[0].fields - {"hooks"} == elem.fields - {"hooks"}
                  && InGroup(ListField(r[0].fields, "hooks"), "") == Without(InGroup(ListField(elem.fields, "hooks"), ""), {marker}))
  {
    hide MarkerOf, Owned;
    if elem.Obj? && MatcherOf(elem.fields) in retired {
      var items := ListField(elem.fields, "hooks");
      AllOwnedGo(items, {marker});
      KeptAreWithout(items, {marker});
    }
  }

  lemma {:induction false} AllOwnedGo(entries: seq<Json>, markers: set<string>)
    ensures KeepEntries(entries, markers) == [] <==> forall h <- entries :: Owned(h, markers)
  {
    hide Owned;
    if entries != [] {
      AllOwnedGo(entries[1..], markers);
      assert entries[0] in entries && (forall h <- entries[1..] :: h in entries) && forall h <- entries :: h == entries[0] || h in entries[1..];
    }
  }

  lemma {:induction false} KeptAreWithout(entries: seq<Json>, markers: set<string>)
    ensures InGroup(KeepEntries(entries, markers), "") == Without(InGroup(entries, ""), markers)
  {
    hide Owned;
    if entries != [] {
      KeptAreWithout(entries[1..], markers);
      assert InGroup(entries, "")[1..] == InGroup(entries[1..], "");
      if Owned(entries[0], markers) {
        assert KeepEntries(entries, markers) == KeepEntries(entries[1..], markers);
      } else {
        assert ([entries[0]] + KeepEntries(entries[1..], markers))[1..] == KeepEntries(entries[1..], markers);
      }
    }
  }
}
