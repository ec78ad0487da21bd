/**
  The hook map as a value: event name to a list of elements, each a group holding
  entries (Claude Code, Codex) or an entry itself (Cursor). The functions say what
  `mergeHook`, `retireMatchers`, `removeMarker` and `findMarkerEntries`
  (internal/cli/hooks_settings.go) make of it, on any JSON whatever.
*/
module HookConfig {
  import opened Basics
  import opened Json
  import opened HookEntries

  function MatcherOf(group: Fields): string { StringField(group, "matcher") }

  /** The list an event holds; an event that is missing or not a list has none. */
  function ListOf(hooks: Fields, event: string): seq<Json> { ListField(hooks, event) }

  /** Whether `eventEntries` takes the element for a group. */
  predicate Nested(elem: Json) { elem.Obj? && HasList(elem.fields, "hooks") }

  /** Whether `mergeHook` takes the element for the group of `matcher`. */
  predicate GroupFor(elem: Json, matcher: string) { elem.Obj? && MatcherOf(elem.fields) == matcher }

  function Group(elem: Json, entries: seq<Json>): Json
    requires elem.Obj?
  {
    Obj(elem.fields["hooks" := Arr(entries)])
  }

  // ----- mergeHook ---------------------------------------------------------

  function NewGroup(matcher: string, entry: Fields): Json {
    var bare: Fields := map["hooks" := Arr([Obj(entry)])];
    Obj(if matcher == "" then bare else bare["matcher" := Str(matcher)])
  }

  /** The first entry carrying the marker is replaced; without one the entry goes last. */
  function MergeEntries(entries: seq<Json>, entry: Fields, marker: string): seq<Json> {
    if entries == [] then [Obj(entry)]
    else if Owned(entries[0], {marker}) then [Obj(entry)] + entries[1..]
    else [entries[0]] + MergeEntries(entries[1..], entry, marker)
  }

  function MergeList(list: seq<Json>, matcher: string, entry: Fields, marker: string): (merged: seq<Json>)
    ensures merged != []
  {
    if list == [] then [NewGroup(matcher, entry)]
    else if GroupFor(list[0], matcher) then
      [Group(list[0], MergeEntries(ListField(list[0].fields, "hooks"), entry, marker))] + list[1..]
    else [list[0]] + MergeList(list[1..], matcher, entry, marker)
  }

  function Merge(hooks: Fields, event: string, matcher: string, entry: Fields, marker: string): Fields {
    hooks[event := Arr(MergeList(ListOf(hooks, event), matcher, entry, marker))]
  }

  /** The operator is warned when an entry already wired pointed elsewhere. */
  datatype Warning = Rewired(marker: string, oldCommand: string)

  function MergeEntriesWarning(entries: seq<Json>, entry: Fields, marker: string): Option<Warning> {
    if entries == [] then None
    else if Owned(entries[0], {marker}) then
      var old_ := StringField(entries[0].fields, "command");
      if ("command" in entry && entry["command"] == Str(old_)) || entries[0] == Obj(entry) then None
      else Some(Rewired(marker, old_))
    else MergeEntriesWarning(entries[1..], entry, marker)
  }

  function MergeWarning(list: seq<Json>, matcher: string, entry: Fields, marker: string): Option<Warning> {
    if list == [] then None
    else if GroupFor(list[0], matcher) then MergeEntriesWarning(ListField(list[0].fields, "hooks"), entry, marker)
    else MergeWarning(list[1..], matcher, entry, marker)
  }

  // ----- removing entries --------------------------------------------------

  /** The entries carrying none of the markers, in order. */
  function KeepEntries(entries: seq<Json>, markers: set<string>): seq<Json> {
    if entries == [] then []
    else (if Owned(entries[0], markers) then [] else [entries[0]]) + KeepEntries(entries[1..], markers)
  }

  function RetireElem(elem: Json, marker: string, matchers: seq<string>): seq<Json> {
    if !elem.Obj? || MatcherOf(elem.fields) !in matchers then [elem]
    else
      var rest := KeepEntries(ListField(elem.fields, "hooks"), {marker});
      if rest == [] then [] else [Group(elem, rest)]
  }

  function RetireList(list: seq<Json>, marker: string, matchers: seq<string>): seq<Json> {
    if list == [] then [] else RetireElem(list[0], marker, matchers) + RetireList(list[1..], marker, matchers)
  }

  /** Whether some group under a retired matcher holds an entry with the marker. */
  predicate Retires(list: seq<Json>, marker: string, matchers: seq<string>) {
    exists g <- list :: g.Obj? && MatcherOf(g.fields) in matchers
      && exists h <- ListField(g.fields, "hooks") :: Owned(h, {marker})
  }

  function Retire(hooks: Fields, event: string, marker: string, matchers: seq<string>): Fields {
    if Retires(ListOf(hooks, event), marker, matchers)
    then hooks[event := Arr(RetireList(ListOf(hooks, event), marker, matchers))]
    else hooks
  }

  /** One element after a removal: a group loses its owned entries and goes when none is left. */
  function KeepElem(elem: Json, markers: set<string>): seq<Json> {
    if Nested(elem) then
      var kept := KeepEntries(elem.fields["hooks"].items, markers);
      if kept == [] then [] else [Group(elem, kept)]
    else if Owned(elem, markers) then [] else [elem]
  }

  function KeepList(list: seq<Json>, markers: set<string>): seq<Json> {
    if list == [] then [] else KeepElem(list[0], markers) + KeepList(list[1..], markers)
  }

  /** What becomes of one event: `None` is the key being deleted. */
  function KeepEvent(raw: Json, markers: set<string>): Option<Json> {
    if !raw.Arr? || raw.items == [] then Some(raw)
    else
      var kept := KeepList(raw.items, markers);
      if kept == [] then None else Some(Arr(kept))
  }

  /** `removeMarker` for every marker of a set at once; `Remove(h, {m})` is one call. */
  function Remove(hooks: Fields, markers: set<string>): Fields {
    map event | event in hooks && KeepEvent(hooks[event], markers).Some? :: KeepEvent(hooks[event], markers).value
  }

  // ----- findMarkerEntries -------------------------------------------------

  /** An entry and the matcher it is reported under. */
  datatype Located = Located(matcher: string, entry: Json)

  function InGroup(entries: seq<Json>, matcher: string): seq<Located> {
    if entries == [] then [] else [Located(matcher, entries[0])] + InGroup(entries[1..], matcher)
  }

  /** `eventEntries`: what one element of an event's list holds. */
  function ElemEntries(elem: Json): seq<Located> {
    if !elem.Obj? then []
    else if Nested(elem) then InGroup(elem.fields["hooks"].items, MatcherOf(elem.fields))
    else [Located("", elem)]
  }

  function Entries(list: seq<Json>): seq<Located> {
    if list == [] then [] else ElemEntries(list[0]) + Entries(list[1..])
  }

  function Without(entries: seq<Located>, markers: set<string>): seq<Located> {
    if entries == [] then []
    else (if Owned(entries[0].entry, markers) then [] else [entries[0]]) + Without(entries[1..], markers)
  }

  function With(entries: seq<Located>, markers: set<string>): seq<Located> {
    if entries == [] then []
    else (if Owned(entries[0].entry, markers) then [entries[0]] else []) + With(entries[1..], markers)
  }

  /** What `findMarkerEntries` finds for one event. */
  function Found(hooks: Fields, event: string, markers: set<string>): seq<Located> {
    With(Entries(ListOf(hooks, event)), markers)
  }

  predicate FindsAny(hooks: Fields, markers: set<string>) {
    exists event <- hooks :: Found(hooks, event, markers) != []
  }

  // ----- laws of removal ---------------------------------------------------

  lemma {:induction false} KeepEntriesTwice(entries: seq<Json>, a: set<string>, b: set<string>)
    ensures KeepEntries(KeepEntries(entries, a), b) == KeepEntries(entries, a + b)
  {
    hide MarkerOf;
    if entries != [] {
      KeepEntriesTwice(entries[1..], a, b);
      if !Owned(entries[0], a) {
        KeepEntriesAppend([entries[0]], KeepEntries(entries[1..], a), b);
      } else {
        assert KeepEntries(entries, a) == KeepEntries(entries[1..], a);
      }
    }
  }

  lemma {:induction false} KeepEntriesAppend(x: seq<Json>, y: seq<Json>, markers: set<string>)
    ensures KeepEntries(x + y, markers) == KeepEntries(x, markers) + KeepEntries(y, markers)
  {
    hide Owned;
    if x == [] {
      assert x + y == y;
    } else {
      assert (x + y)[0] == x[0] && (x + y)[1..] == x[1..] + y;
      KeepEntriesAppend(x[1..], y, markers);
    }
  }

  lemma {:induction false} KeepListAppend(x: seq<Json>, y: seq<Json>, markers: set<string>)
    ensures KeepList(x + y, markers) == KeepList(x, markers) + KeepList(y, markers)
  {
    hide MarkerOf, Owned;
    if x == [] {
      assert x + y == y;
    } else {
      assert (x + y)[0] == x[0] && (x + y)[1..] == x[1..] + y;
      KeepListAppend(x[1..], y, markers);
    }
  }

  lemma KeepElemTwice(elem: Json, a: set<string>, b: set<string>)
    ensures KeepList(KeepElem(elem, a), b) == KeepElem(elem, a + b)
  {
    hide MarkerOf;
    if Nested(elem) {
      var items := elem.fields["hooks"].items;
      var kept := KeepEntries(items, a);
      KeepEntriesTwice(items, a, b);
      if kept != [] {
        KeepOne(Group(elem, kept), b);
        var again := KeepEntries(kept, b);
        assert elem.fields["hooks" := Arr(kept)]["hooks" := Arr(again)] == elem.fields["hooks" := Arr(again)];
      }
    } else {
      KeepOne(elem, b);
    }
  }

  lemma KeepOne(elem: Json, markers: set<string>)
    ensures KeepList([elem], markers) == KeepElem(elem, markers)
  {
    assert [elem][1..] == [];
  }

  lemma {:induction false} KeepListTwice(list: seq<Json>, a: set<string>, b: set<string>)
    ensures KeepList(KeepList(list, a), b) == KeepList(list, a + b)
  {
    hide MarkerOf;
    if list != [] {
      KeepListTwice(list[1..], a, b);
      KeepElemTwice(list[0], a, b);
      KeepListAppend(KeepElem(list[0], a), KeepList(list[1..], a), b);
    }
  }

  /** Removing in two steps is removing the union: the law behind everything below. */
  lemma RemoveTwice(hooks: Fields, a: set<string>, b: set<string>)
    ensures Remove(Remove(hooks, a), b) == Remove(hooks, a + b)
  {
    hide MarkerOf;
    var once := Remove(hooks, a);
    forall event | event in hooks
      ensures if event in once then KeepEvent(once[event], b) == KeepEvent(hooks[event], a + b)
              else KeepEvent(hooks[event], a + b).None?
    {
      var raw := hooks[event];
      if raw.Arr? && raw.items != [] {
        KeepListTwice(raw.items, a, b);
      }
    }
  }

  /** `removeMarker` is idempotent, and the order of two markers does not matter. */
  lemma RemovalsCommute(hooks: Fields, a: string, b: string)
    ensures Remove(Remove(hooks, {a}), {b}) == Remove(Remove(hooks, {b}), {a})
    ensures Remove(Remove(hooks, {a}), {a}) == Remove(hooks, {a})
  {
    RemoveTwice(hooks, {a}, {b});
    RemoveTwice(hooks, {b}, {a});
    RemoveTwice(hooks, {a}, {a});
    assert {a} + {b} == {b} + {a};
    assert {a} + {a} == {a};
  }

  lemma {:induction false} WithoutAppend(x: seq<Located>, y: seq<Located>, markers: set<string>)
    ensures Without(x + y, markers) == Without(x, markers) + Without(y, markers)
  {
    hide Owned;
    if x == [] {
      assert x + y == y;
    } else {
      assert (x + y)[0] == x[0] && (x + y)[1..] == x[1..] + y;
      WithoutAppend(x[1..], y, markers);
      var head := if Owned(x[0].entry, markers) then [] else [x[0]];
      assert Without(x + y, markers) == head + Without((x + y)[1..], markers);
      assert head + (Without(x[1..], markers) + Without(y, markers)) == head + Without(x[1..], markers) + Without(y, markers);
    }
  }

  lemma {:induction false} WithAppend(x: seq<Located>, y: seq<Located>, markers: set<string>)
    ensures With(x + y, markers) == With(x, markers) + With(y, markers)
  {
    hide Owned;
    if x == [] {
      assert x + y == y;
    } else {
      assert (x + y)[0] == x[0] && (x + y)[1..] == x[1..] + y;
      WithAppend(x[1..], y, markers);
      var head := if Owned(x[0].entry, markers) then [x[0]] else [];
      assert With(x + y, markers) == head + With((x + y)[1..], markers);
      assert head + (With(x[1..], markers) + With(y, markers)) == head + With(x[1..], markers) + With(y, markers);
    }
  }

  lemma {:induction false} EntriesAppend(x: seq<Json>, y: seq<Json>)
    ensures Entries(x + y) == Entries(x) + Entries(y)
  {
    if x == [] {
      assert x + y == y;
    } else {
      assert (x + y)[0] == x[0] && (x + y)[1..] == x[1..] + y;
      EntriesAppend(x[1..], y);
    }
  }

  lemma {:induction false} InGroupKept(entries: seq<Json>, matcher: string, markers: set<string>)
    ensures InGroup(KeepEntries(entries, markers), matcher) == Without(InGroup(entries, matcher), markers)
  {
    hide MarkerOf;
    if entries != [] {
      InGroupKept(entries[1..], matcher, markers);
      var tail := InGroup(entries[1..], matcher);
      assert InGroup(entries, matcher)[1..] == tail;
      if !Owned(entries[0], markers) {
        assert ([entries[0]] + KeepEntries(entries[1..], markers))[1..] == KeepEntries(entries[1..], markers);
      } else {
        assert KeepEntries(entries, markers) == KeepEntries(entries[1..], markers);
      }
    }
  }

  lemma ElemEntriesKept(elem: Json, markers: set<string>)
    ensures Entries(KeepElem(elem, markers)) == Without(ElemEntries(elem), markers)
  {
    hide MarkerOf;
    if Nested(elem) {
      var items := elem.fields["hooks"].items;
      InGroupKept(items, MatcherOf(elem.fields), markers);
      var kept := KeepEntries(items, markers);
      if kept != [] {
        assert [Group(elem, kept)][1..] == [];
      }
    } else {
      assert [elem][1..] == [];
    }
  }

  /** Entries that do not carry a removed marker keep their matcher and their order. */
  lemma {:induction false} EntriesKept(list: seq<Json>, markers: set<string>)
    ensures Entries(KeepList(list, markers)) == Without(Entries(list), markers)
  {
    hide MarkerOf;
    if list != [] {
      EntriesKept(list[1..], markers);
      ElemEntriesKept(list[0], markers);
      EntriesAppend(KeepElem(list[0], markers), KeepList(list[1..], markers));
      WithoutAppend(ElemEntries(list[0]), Entries(list[1..]), markers);
    }
  }

  lemma {:induction false} WithOfWithout(entries: seq<Located>, a: set<string>, b: set<string>)
    ensures With(Without(entries, a), b) == With(entries, b - a)
  {
    hide MarkerOf;
    if entries != [] {
      WithOfWithout(entries[1..], a, b);
      if !Owned(entries[0].entry, a) {
        WithAppend([entries[0]], Without(entries[1..], a), b);
      } else {
        assert Without(entries, a) == Without(entries[1..], a);
      }
    }
  }

  lemma {:induction false} WithNothing(entries: seq<Located>)
    ensures With(entries, {}) == []
  {
    if entries != [] {
      WithNothing(entries[1..]);
    }
  }

  lemma {:induction false} MergedEntriesFound(entries: seq<Json>, matcher: string, entry: Fields, marker: string,
      markers: set<string>)
    requires MarkerOf(entry) == Some(marker) && marker in markers
    ensures With(InGroup(MergeEntries(entries, entry, marker), matcher), markers) != []
  {
    hide MarkerOf;
    if entries != [] && !Owned(entries[0], {marker}) {
      MergedEntriesFound(entries[1..], matcher, entry, marker, markers);
      var rest := MergeEntries(entries[1..], entry, marker);
      assert ([entries[0]] + rest)[1..] == rest;
      assert InGroup([entries[0]] + rest, matcher)[1..] == InGroup(rest, matcher);
    }
  }

  lemma MergedGroupFound(elem: Json, entry: Fields, marker: string, markers: set<string>)
    requires elem.Obj? && MarkerOf(entry) == Some(marker) && marker in markers
    ensures var merged := Group(elem, MergeEntries(ListField(elem.fields, "hooks"), entry, marker));
            With(ElemEntries(merged), markers) != []
  {
    hide MarkerOf, Owned, With, InGroup, MergeEntries;
    MergedEntriesFound(ListField(elem.fields, "hooks"), MatcherOf(elem.fields), entry, marker, markers);
  }

  lemma NewGroupFound(matcher: string, entry: Fields, marker: string, markers: set<string>)
    requires MarkerOf(entry) == Some(marker) && marker in markers
    ensures With(ElemEntries(NewGroup(matcher, entry)), markers) != []
  {
    hide MarkerOf;
    var elem := NewGroup(matcher, entry);
    assert elem.fields["hooks"].items == [Obj(entry)];
    MergedEntriesFound([], MatcherOf(elem.fields), entry, marker, markers);
  }

  /** A merge leaves its entry where status finds it, whatever the list held. */
  lemma {:induction false} MergedIsFound(list: seq<Json>, matcher: string, entry: Fields, marker: string, markers: set<string>)
    requires MarkerOf(entry) == Some(marker) && marker in markers
    ensures With(Entries(MergeList(list, matcher, entry, marker)), markers) != []
  {
    hide MarkerOf, Owned, With, ElemEntries, NewGroup, MergeEntries;
    var merged := MergeList(list, matcher, entry, marker);
    WithAppend(ElemEntries(merged[0]), Entries(merged[1..]), markers);
    if list == [] {
      NewGroupFound(matcher, entry, marker, markers);
    } else if GroupFor(list[0], matcher) {
      assert list[0].Obj?;
      MergedGroupFound(list[0], entry, marker, markers);
    } else {
      MergedIsFound(list[1..], matcher, entry, marker, markers);
      assert merged[1..] == MergeList(list[1..], matcher, entry, marker);
    }
  }

  lemma ListAfterRemove(hooks: Fields, event: string, markers: set<string>)
    ensures ListOf(Remove(hooks, markers), event) == KeepList(ListOf(hooks, event), markers)
  {
  }

  /**
    What a removal does to every event of any config at all: the removed markers are
    found nowhere, and every other entry is still there under its matcher, in order.
  */
  lemma RemovalIsExact(hooks: Fields, markers: set<string>, event: string)
    ensures Found(Remove(hooks, markers), event, markers) == []
    ensures Entries(ListOf(Remove(hooks, markers), event)) == Without(Entries(ListOf(hooks, event)), markers)
    ensures forall other :: Found(Remove(hooks, markers), event, other) == Found(hooks, event, other - markers)
  {
    hide MarkerOf;
    var list := ListOf(hooks, event);
    ListAfterRemove(hooks, event, markers);
    EntriesKept(list, markers);
    forall other
      ensures Found(Remove(hooks, markers), event, other) == Found(hooks, event, other - markers)
    {
      WithOfWithout(Entries(list), markers, other);
    }
    WithNothing(Entries(list));
    assert markers - markers == {};
  }
}
