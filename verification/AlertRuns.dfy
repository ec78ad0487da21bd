/** What the alerter promises over whole runs of readings. */
module AlertRuns {
  import opened Basics
  import opened Glance
  import opened Alerts

  /** All updates of a run of glances: silent until the first readable one has passed. */
  function RunUpdates(gs: seq<Option<GlanceView>>, primed: bool): seq<Update>
    decreases gs
  {
    if gs == [] then []
    else if !Readable(gs[0]) then RunUpdates(gs[1..], primed)
    else Updates(gs[0].value.reports, primed) + RunUpdates(gs[1..], true)
  }

  /** A run is one observation after another: an unreadable glance is passed over, and the first readable one primes. */
  lemma RunIsObserved(steps: Steps, g: Option<GlanceView>, gs: seq<Option<GlanceView>>, primed: bool)
    ensures !Readable(g) ==> RunUpdates([g] + gs, primed) == RunUpdates(gs, primed)
    ensures Readable(g) ==>
              var here := Updates(g.value.reports, primed);
              After(steps, RunUpdates([g] + gs, primed)) == After(After(steps, here), RunUpdates(gs, true))
              && Notes(steps, RunUpdates([g] + gs, primed)) == Notes(steps, here) + Notes(After(steps, here), RunUpdates(gs, true))
  {
    assert ([g] + gs)[0] == g && ([g] + gs)[1..] == gs;
    if Readable(g) {
      AfterAppend(steps, Updates(g.value.reports, primed), RunUpdates(gs, true));
    }
  }

  // ----- counting, per key -------------------------------------------------

  function Warnings(notes: seq<Note>, key: string): nat {
    if notes == [] then 0
    else (if notes[0].Warning? && notes[0].key == key then 1 else 0) + Warnings(notes[1..], key)
  }

  function Resets(notes: seq<Note>, key: string): nat {
    if notes == [] then 0
    else (if notes[0].Reset? && notes[0].key == key then 1 else 0) + Resets(notes[1..], key)
  }

  /** How often an update leaves the key's step lower than it found it. */
  function Falls(steps: Steps, updates: seq<Update>, key: string): nat
    decreases updates
  {
    if updates == [] then 0
    else (if updates[0].key == key && updates[0].step < StepAt(steps, key) then 1 else 0)
         + Falls(steps[updates[0].key := updates[0].step], updates[1..], key)
  }

  /** Every update of the key comes from a usage figure and may notify. */
  predicate LiveUsage(updates: seq<Update>, key: string) {
    forall i | 0 <= i < |updates| :: updates[i].step <= 3 && updates[i].primed && (updates[i].key == key ==> updates[i].source.Usage?)
  }

  lemma CountsOfFirst(prev: nat, u: Update, rest: seq<Note>, key: string)
    ensures var notes := Emitted(prev, u) + rest;
            Warnings(notes, key) == Warnings(Emitted(prev, u), key) + Warnings(rest, key)
            && Resets(notes, key) == Resets(Emitted(prev, u), key) + Resets(rest, key)
  {
    var e := Emitted(prev, u);
    if e == [] {
      assert e + rest == rest;
    } else {
      assert (e + rest)[1..] == rest && e[1..] == [];
    }
  }

  lemma CountsOfOne(prev: nat, u: Update, key: string)
    requires u.primed && (u.key == key ==> u.source.Usage?)
    ensures Warnings(Emitted(prev, u), key) == if u.key == key && u.step > prev then 1 else 0
    ensures Resets(Emitted(prev, u), key) == if u.key == key && u.step == 0 < prev then 1 else 0
  {
    var e := Emitted(prev, u);
    assert e != [] ==> e[1..] == [];
  }

  /**
    The conservation argument: the step a key ends on is the one it began with, plus what
    warnings raised it by, less what falls took. Each warning raises it by one to three and
    each fall takes at most three, so no rise goes unannounced either.
  */
  lemma {:induction false} StepIsConserved(steps: Steps, updates: seq<Update>, key: string)
    requires LiveUsage(updates, key) && StepAt(steps, key) <= 3
    ensures StepAt(After(steps, updates), key) <= 3
    ensures StepAt(steps, key) + Warnings(Notes(steps, updates), key)
            <= StepAt(After(steps, updates), key) + 3 * Falls(steps, updates, key)
    ensures StepAt(After(steps, updates), key) <= StepAt(steps, key) + 3 * Warnings(Notes(steps, updates), key)
    decreases updates
  {
    if updates != [] {
      var u := updates[0];
      var next := steps[u.key := u.step];
      StepIsConserved(next, updates[1..], key);
      CountsOfFirst(StepAt(steps, u.key), u, Notes(next, updates[1..]), key);
      CountsOfOne(StepAt(steps, u.key), u, key);
    }
  }

  /** A key that had alerted can reset once more than it warns; a key that had not cannot. */
  lemma {:induction false} ResetsFollowWarnings(steps: Steps, updates: seq<Update>, key: string)
    requires LiveUsage(updates, key)
    ensures Resets(Notes(steps, updates), key) + (if StepAt(After(steps, updates), key) > 0 then 1 else 0)
            <= Warnings(Notes(steps, updates), key) + (if StepAt(steps, key) > 0 then 1 else 0)
    ensures Resets(Notes(steps, updates), key) + (if StepAt(After(steps, updates), key) > 0 then 1 else 0)
            >= (if StepAt(steps, key) > 0 then 1 else 0)
    decreases updates
  {
    if updates != [] {
      var u := updates[0];
      var next := steps[u.key := u.step];
      ResetsFollowWarnings(next, updates[1..], key);
      CountsOfFirst(StepAt(steps, u.key), u, Notes(next, updates[1..]), key);
      CountsOfOne(StepAt(steps, u.key), u, key);
    }
  }

  // ----- keys --------------------------------------------------------------

  predicate SlashFree(s: string) { '/' !in s }

  /** A plan-reading key of a slash-free provider is no usage key, and names one provider. */
  lemma ReadingKeysStandApart(p: string, q: string, name: string, tag: string)
    requires SlashFree(p)
    ensures ReadingKey(p) != WindowKey(q, name, tag)
    ensures ReadingKey(p) != SpendKey(q)
    ensures ReadingKey(p) == ReadingKey(q) ==> p == q
  {
    ReadingSlashes(p);
    WindowSlashes(q, name, tag);
    var a := ReadingKey(p);
    assert a[|a| - 1] == 'g' && SpendKey(q)[|SpendKey(q)| - 1] == 'd';
    if a == ReadingKey(q) {
      assert |p| == |q| && a[..|p|] == p && ReadingKey(q)[..|q|] == q;
    }
  }

  lemma ReadingSlashes(p: string)
    requires SlashFree(p)
    ensures Slashes(ReadingKey(p)) == 1
  {
    SlashesAdd(p, "/reading");
    SlashFreeHasNone(p);
    SlashFreeHasNone("reading");
    assert "/reading"[1..] == "reading";
  }

  lemma WindowSlashes(q: string, name: string, tag: string)
    ensures Slashes(WindowKey(q, name, tag)) >= 2
  {
    assert WindowKey(q, name, tag) == q + ("/" + name) + ("/" + tag);
    SlashesAdd(q + ("/" + name), "/" + tag);
    SlashesAdd(q, "/" + name);
    assert ("/" + name)[0] == '/' && ("/" + tag)[0] == '/';
  }

  function Slashes(s: string): nat {
    if s == "" then 0 else (if s[0] == '/' then 1 else 0) + Slashes(s[1..])
  }

  lemma {:induction false} SlashesAdd(a: string, b: string)
    ensures Slashes(a + b) == Slashes(a) + Slashes(b)
  {
    if a == "" {
      assert a + b == b;
    } else {
      assert (a + b)[0] == a[0] && (a + b)[1..] == a[1..] + b;
      SlashesAdd(a[1..], b);
    }
  }

  lemma {:induction false} SlashFreeHasNone(s: string)
    requires SlashFree(s)
    ensures Slashes(s) == 0
  {
    if s != "" {
      SlashFreeHasNone(s[1..]);
    }
  }

  /**
    Exactly the providers with a slash collide: split at any slash, the reading of the whole
    and a window of the first part share a step.
  */
  lemma SlashedProviderCollides(p: string)
    ensures (exists q, name, tag :: ReadingKey(p) == WindowKey(q, name, tag)) <==> !SlashFree(p)
  {
    if SlashFree(p) {
      forall q, name, tag
        ensures ReadingKey(p) != WindowKey(q, name, tag)
      {
        ReadingKeysStandApart(p, q, name, tag);
      }
    } else {
      var i :| 0 <= i < |p| && p[i] == '/';
      assert p == p[..i] + "/" + p[i + 1..];
      assert ReadingKey(p) == WindowKey(p[..i], p[i + 1..], "reading");
    }
  }

  // ----- stale windows -----------------------------------------------------

  predicate Untouched(updates: seq<Update>, key: string) {
    forall i | 0 <= i < |updates| :: updates[i].key != key
  }

  /** A key nothing updates keeps its step and says nothing. */
  lemma {:induction false} UntouchedIsSilent(steps: Steps, updates: seq<Update>, key: string)
    requires Untouched(updates, key)
    ensures StepAt(After(steps, updates), key) == StepAt(steps, key)
    ensures Warnings(Notes(steps, updates), key) == 0 && Resets(Notes(steps, updates), key) == 0
    decreases updates
  {
    if updates != [] {
      var u := updates[0];
      var next := steps[u.key := u.step];
      UntouchedIsSilent(next, updates[1..], key);
      var e := Emitted(StepAt(steps, u.key), u);
      CountsOfFirst(StepAt(steps, u.key), u, Notes(next, updates[1..]), key);
      assert e != [] ==> e[1..] == [];
    }
  }

  /** A window with the key that is being read, or a windowless plan's spend. */
  predicate Live(reports: seq<Report>, key: string) {
    exists r <- reports ::
      (exists w <- r.windows :: !w.stale && WindowKey(r.provider, w.name, w.vendorLabel) == key)
      || (r.windows == [] && r.spendLimit > 0.0 && SpendKey(r.provider) == key)
  }

  lemma {:induction false} WindowMeasuresAreLive(provider: string, windows: seq<Window>)
    ensures forall m <- WindowMeasures(provider, windows) ::
              exists w <- windows :: !w.stale && WindowKey(provider, w.name, w.vendorLabel) == m.key
  {
    if windows != [] {
      WindowMeasuresAreLive(provider, windows[..|windows| - 1]);
      assert forall w <- windows[..|windows| - 1] :: w in windows;
      assert windows[|windows| - 1] in windows;
    }
  }

  lemma {:induction false} MeasuresAreLive(reports: seq<Report>)
    ensures forall m <- Measures(reports) :: Live(reports, m.key)
  {
    if reports != [] {
      var front, r := reports[..|reports| - 1], reports[|reports| - 1];
      MeasuresAreLive(front);
      WindowMeasuresAreLive(r.provider, r.windows);
      assert forall q <- front :: q in reports;
      assert r in reports;
      forall m | m in Measures(reports)
        ensures Live(reports, m.key)
      {
        if m in Measures(front) {
          assert Live(front, m.key);
        } else {
          assert m in ReportMeasures(r);
        }
      }
    }
  }

  /**
    A stale window neither changes a step nor emits: a glance in which no live window or spend
    has the key leaves the key's step and says nothing about it.
  */
  lemma StaleWindowsAreSilent(steps: Steps, reports: seq<Report>, primed: bool, key: string)
    requires !Live(reports, key) && forall r <- reports :: ReadingKey(r.provider) != key
    ensures var updates := Updates(reports, primed);
            StepAt(After(steps, updates), key) == StepAt(steps, key)
            && Warnings(Notes(steps, updates), key) == 0 && Resets(Notes(steps, updates), key) == 0
  {
    MeasuresAreLive(reports);
    ReadingUpdatesShape(reports, primed);
    var first, rest := ReadingUpdates(reports, primed), UsageUpdates(Measures(reports), primed);
    var all: seq<Update> := first + rest;
    forall i | 0 <= i < |all|
      ensures all[i].key != key
    {
      if i >= |first| {
        assert Measures(reports)[i - |first|] in Measures(reports);
      }
    }
    UntouchedIsSilent(steps, Updates(reports, primed), key);
  }

  lemma {:induction false} ReadingUpdatesShape(reports: seq<Report>, primed: bool)
    ensures forall i | 0 <= i < |ReadingUpdates(reports, primed)| ::
              var u := ReadingUpdates(reports, primed)[i];
              u.source.Plan? && u.key == ReadingKey(u.source.provider) && u.step <= 1 && u.primed == primed
              && exists r <- reports :: r.provider == u.source.provider
  {
    if reports != [] {
      ReadingUpdatesShape(reports[..|reports| - 1], primed);
      assert forall q <- reports[..|reports| - 1] :: q in reports;
      assert reports[|reports| - 1] in reports;
    }
  }

  // ----- runs --------------------------------------------------------------

  predicate SlashFreeProviders(gs: seq<Option<GlanceView>>) {
    forall i | 0 <= i < |gs| && gs[i].Some? :: forall r <- gs[i].value.reports :: SlashFree(r.provider)
  }

  /** A key usage figures are kept under. */
  ghost predicate UsageKey(key: string) {
    (exists q, n, l :: key == WindowKey(q, n, l)) || exists q :: key == SpendKey(q)
  }

  /** What `observe` assigns when provider ids hold no slash. */
  ghost predicate WellKeyed(u: Update) {
    match u.source
    case Plan(p) => u.key == ReadingKey(p) && u.step <= 1 && SlashFree(p)
    case Usage => u.step <= 3 && UsageKey(u.key)
  }

  lemma UpdatesAreWellKeyed(reports: seq<Report>, primed: bool)
    requires forall r <- reports :: SlashFree(r.provider)
    ensures forall i | 0 <= i < |Updates(reports, primed)| ::
              WellKeyed(Updates(reports, primed)[i]) && Updates(reports, primed)[i].primed == primed
  {
    ReadingUpdatesShape(reports, primed);
    MeasuresAreLive(reports);
    var first, ms := ReadingUpdates(reports, primed), Measures(reports);
    forall i | 0 <= i < |Updates(reports, primed)|
      ensures WellKeyed(Updates(reports, primed)[i]) && Updates(reports, primed)[i].primed == primed
    {
      if i >= |first| {
        var m := ms[i - |first|];
        assert m in ms && Live(reports, m.key);
      }
    }
  }

  lemma {:induction false} RunIsWellKeyed(gs: seq<Option<GlanceView>>)
    requires SlashFreeProviders(gs)
    ensures forall i | 0 <= i < |RunUpdates(gs, true)| :: WellKeyed(RunUpdates(gs, true)[i]) && RunUpdates(gs, true)[i].primed
    decreases gs
  {
    if gs != [] {
      RunIsWellKeyed(gs[1..]);
      if Readable(gs[0]) {
        UpdatesAreWellKeyed(gs[0].value.reports, true);
      }
    }
  }

  lemma UsageKeysAreLive(updates: seq<Update>, key: string)
    requires forall i | 0 <= i < |updates| :: WellKeyed(updates[i]) && updates[i].primed
    requires UsageKey(key)
    ensures LiveUsage(updates, key)
  {
    forall i | 0 <= i < |updates| && updates[i].key == key
      ensures updates[i].source.Usage?
    {
      if updates[i].source.Plan? {
        var p := updates[i].source.provider;
        if q, n, l :| key == WindowKey(q, n, l) {
          ReadingKeysStandApart(p, q, n, l);
        } else {
          var q :| key == SpendKey(q);
          ReadingKeysStandApart(p, q, "", "");
        }
      }
    }
  }

  /**
    Over any run of readings after the first, a window's warnings number at most three for
    every time its step fell, plus what was left of the first three, and it never ends higher
    than they account for. Its resets outnumber its warnings by at most one, and only if it
    began past a step; and if it began past one and ends past none, it said so.
  */
  lemma WarningsAreBounded(steps: Steps, gs: seq<Option<GlanceView>>, key: string)
    requires SlashFreeProviders(gs) && UsageKey(key) && StepAt(steps, key) <= 3
    ensures var updates := RunUpdates(gs, true);
            var notes := Notes(steps, updates);
            Warnings(notes, key) <= 3 * Falls(steps, updates, key) + 3 - StepAt(steps, key)
            && StepAt(After(steps, updates), key) <= StepAt(steps, key) + 3 * Warnings(notes, key)
            && Resets(notes, key) <= Warnings(notes, key) + (if StepAt(steps, key) > 0 then 1 else 0)
            && (StepAt(steps, key) > 0 && StepAt(After(steps, updates), key) == 0 ==> Resets(notes, key) > 0)
  {
    var updates := RunUpdates(gs, true);
    RunIsWellKeyed(gs);
    UsageKeysAreLive(updates, key);
    StepIsConserved(steps, updates, key);
    ResetsFollowWarnings(steps, updates, key);
  }

  /** An update that may not notify does not. */
  lemma {:induction false} UnprimedIsQuiet(steps: Steps, updates: seq<Update>)
    requires forall i | 0 <= i < |updates| :: !updates[i].primed
    ensures Notes(steps, updates) == []
    decreases updates
  {
    if updates != [] {
      UnprimedIsQuiet(steps[updates[0].key := updates[0].step], updates[1..]);
    }
  }

  /**
    From a fresh start: the priming reading is quiet, and from then on a window's resets exceed
    its warnings only if that reading found it past a step.
  */
  lemma FreshRun(first: GlanceView, gs: seq<Option<GlanceView>>, key: string)
    requires !first.failed && SlashFreeProviders([Some(first)] + gs) && UsageKey(key)
    ensures var all := RunUpdates([Some(first)] + gs, false);
            var primedAt := StepAt(After(map[], Updates(first.reports, false)), key);
            Notes(map[], Updates(first.reports, false)) == []
            && Warnings(Notes(map[], all), key) <= 3 * Falls(After(map[], Updates(first.reports, false)), RunUpdates(gs, true), key) + 3 - primedAt
            && Resets(Notes(map[], all), key) <= Warnings(Notes(map[], all), key) + (if primedAt > 0 then 1 else 0)
  {
    var all := [Some(first)] + gs;
    assert all[0] == Some(first) && all[1..] == gs;
    assert forall i | 0 <= i < |gs| :: gs[i] == all[i + 1];
    var head := Updates(first.reports, false);
    UpdatesAreWellKeyed(first.reports, false);
    UnprimedIsQuiet(map[], head);
    AfterAppend(map[], head, RunUpdates(gs, true));
    assert RunUpdates(all, false) == head + RunUpdates(gs, true);
    assert [] + Notes(After(map[], head), RunUpdates(gs, true)) == Notes(After(map[], head), RunUpdates(gs, true));
    FirstStep(map[], head, key);
    WarningsAreBounded(After(map[], head), gs, key);
  }

  lemma {:induction false} FirstStep(steps: Steps, updates: seq<Update>, key: string)
    requires StepAt(steps, key) <= 3 && forall i | 0 <= i < |updates| :: WellKeyed(updates[i])
    ensures StepAt(After(steps, updates), key) <= 3
    decreases updates
  {
    if updates != [] {
      FirstStep(steps[updates[0].key := updates[0].step], updates[1..], key);
    }
  }

  // ----- usage that never falls --------------------------------------------

  /** The steps assigned to a key, in order. */
  function Keyed(updates: seq<Update>, key: string): seq<nat> {
    if updates == [] then [] else (if updates[0].key == key then [updates[0].step] else []) + Keyed(updates[1..], key)
  }

  /** The figures read for a key, in order. */
  function UsedAt(ms: seq<Measure>, key: string): seq<real> {
    if ms == [] then [] else (if ms[0].key == key then [ms[0].used] else []) + UsedAt(ms[1..], key)
  }

  function UsedInRun(gs: seq<Option<GlanceView>>, key: string): seq<real> {
    if gs == [] then []
    else (if Readable(gs[0]) then UsedAt(Measures(gs[0].value.reports), key) else []) + UsedInRun(gs[1..], key)
  }

  predicate Rising(from: real, used: seq<real>)
    decreases used
  {
    used == [] || (from <= used[0] && Rising(used[0], used[1..]))
  }

  predicate Ascending(from: nat, steps: seq<nat>)
    decreases steps
  {
    steps == [] || (from <= steps[0] && Ascending(steps[0], steps[1..]))
  }

  function StepsFor(used: seq<real>): seq<nat> { if used == [] then [] else [StepOf(used[0])] + StepsFor(used[1..]) }

  lemma {:induction false} RisingAscends(from: real, used: seq<real>)
    requires Rising(from, used)
    ensures Ascending(StepOf(from), StepsFor(used))
    decreases used
  {
    if used != [] {
      StepsRise(from, used[0]);
      RisingAscends(used[0], used[1..]);
    }
  }

  lemma {:induction false} KeyedAppend(x: seq<Update>, y: seq<Update>, key: string)
    ensures Keyed(x + y, key) == Keyed(x, key) + Keyed(y, key)
  {
    if x == [] {
      assert x + y == y;
    } else {
      assert (x + y)[0] == x[0] && (x + y)[1..] == x[1..] + y;
      KeyedAppend(x[1..], y, key);
      var head := if x[0].key == key then [x[0].step] else [];
      assert head + (Keyed(x[1..], key) + Keyed(y, key)) == (head + Keyed(x[1..], key)) + Keyed(y, key);
    }
  }

  lemma {:induction false} UntouchedIsUnkeyed(updates: seq<Update>, key: string)
    requires Untouched(updates, key)
    ensures Keyed(updates, key) == []
  {
    if updates != [] {
      UntouchedIsUnkeyed(updates[1..], key);
    }
  }

  lemma {:induction false} StepsForAppend(x: seq<real>, y: seq<real>)
    ensures StepsFor(x + y) == StepsFor(x) + StepsFor(y)
  {
    if x == [] {
      assert x + y == y;
    } else {
      assert (x + y)[0] == x[0] && (x + y)[1..] == x[1..] + y;
      StepsForAppend(x[1..], y);
    }
  }

  lemma {:induction false} KeyedUsage(ms: seq<Measure>, primed: bool, key: string)
    ensures Keyed(UsageUpdates(ms, primed), key) == StepsFor(UsedAt(ms, key))
  {
    if ms != [] {
      KeyedUsage(ms[1..], primed, key);
      assert UsageUpdates(ms, primed)[1..] == UsageUpdates(ms[1..], primed);
      if ms[0].key == key {
        assert ([ms[0].used] + UsedAt(ms[1..], key))[1..] == UsedAt(ms[1..], key);
      } else {
        assert UsedAt(ms, key) == UsedAt(ms[1..], key);
      }
    }
  }

  /** What one glance assigns to a usage key is the steps of its figures. */
  lemma KeyedGlance(reports: seq<Report>, key: string)
    requires UsageKey(key) && forall r <- reports :: SlashFree(r.provider)
    ensures Keyed(Updates(reports, true), key) == StepsFor(UsedAt(Measures(reports), key))
  {
    var first, ms := ReadingUpdates(reports, true), Measures(reports);
    KeyedAppend(first, UsageUpdates(ms, true), key);
    KeyedUsage(ms, true, key);
    ReadingUpdatesShape(reports, true);
    forall i | 0 <= i < |first|
      ensures first[i].key != key
    {
      UsageIsNotReading(Update(key, 0, Usage, true), first[i].source.provider);
    }
    UntouchedIsUnkeyed(first, key);
  }

  lemma {:induction false} KeyedRun(gs: seq<Option<GlanceView>>, key: string)
    requires UsageKey(key) && SlashFreeProviders(gs)
    ensures Keyed(RunUpdates(gs, true), key) == StepsFor(UsedInRun(gs, key))
    decreases gs
  {
    hide UsageKey;
    if gs != [] {
      KeyedRun(gs[1..], key);
      if Readable(gs[0]) {
        var reports := gs[0].value.reports;
        KeyedGlance(reports, key);
        KeyedAppend(Updates(reports, true), RunUpdates(gs[1..], true), key);
        StepsForAppend(UsedAt(Measures(reports), key), UsedInRun(gs[1..], key));
      } else {
        assert UsedInRun(gs, key) == UsedInRun(gs[1..], key);
      }
    }
  }

  lemma {:induction false} AscendingNeverFalls(steps: Steps, updates: seq<Update>, key: string)
    requires Ascending(StepAt(steps, key), Keyed(updates, key))
    ensures Falls(steps, updates, key) == 0
    decreases updates
  {
    if updates != [] {
      var next := steps[updates[0].key := updates[0].step];
      if updates[0].key == key {
        assert Keyed(updates, key)[1..] == Keyed(updates[1..], key);
      } else {
        assert Keyed(updates, key) == Keyed(updates[1..], key);
      }
      AscendingNeverFalls(next, updates[1..], key);
    }
  }

  /** Every reset note comes with a fall. */
  lemma {:induction false} ResetsAreFalls(steps: Steps, updates: seq<Update>, key: string)
    requires LiveUsage(updates, key)
    ensures Resets(Notes(steps, updates), key) <= Falls(steps, updates, key)
    decreases updates
  {
    if updates != [] {
      var u := updates[0];
      var next := steps[u.key := u.step];
      ResetsAreFalls(next, updates[1..], key);
      CountsOfFirst(StepAt(steps, u.key), u, Notes(next, updates[1..]), key);
      CountsOfOne(StepAt(steps, u.key), u, key);
    }
  }

  /**
    While a window's usage only rises, from the figure its remembered step was read at, it warns
    at most once for each step still to come and never reports a reset.
  */
  lemma RisingUsageWarnsAtMostThrice(steps: Steps, gs: seq<Option<GlanceView>>, key: string, from: real)
    requires SlashFreeProviders(gs) && UsageKey(key)
    requires StepAt(steps, key) == StepOf(from) && Rising(from, UsedInRun(gs, key))
    ensures var notes := Notes(steps, RunUpdates(gs, true));
            Warnings(notes, key) <= 3 - StepOf(from) && Resets(notes, key) == 0
  {
    var updates := RunUpdates(gs, true);
    KeyedRun(gs, key);
    RisingAscends(from, UsedInRun(gs, key));
    AscendingNeverFalls(steps, updates, key);
    WarningsAreBounded(steps, gs, key);
    RunIsWellKeyed(gs);
    UsageKeysAreLive(updates, key);
    ResetsAreFalls(steps, updates, key);
  }

  // ----- plan readings -----------------------------------------------------

  function PlanNotes(notes: seq<Note>, provider: string): seq<Note> {
    if notes == [] then []
    else (if notes[0] == Stopped(provider) || notes[0] == Back(provider) then [notes[0]] else []) + PlanNotes(notes[1..], provider)
  }

  /** Stopped, back, stopped, ... beginning with what the remembered state calls for. */
  predicate Alternate(notes: seq<Note>, provider: string, stopped: bool) {
    notes == [] ||
    (notes[0] == (if stopped then Back(provider) else Stopped(provider)) && Alternate(notes[1..], provider, !stopped))
  }

  lemma PlanNotesOfFirst(e: seq<Note>, rest: seq<Note>, provider: string)
    requires |e| <= 1
    ensures PlanNotes(e + rest, provider) == PlanNotes(e, provider) + PlanNotes(rest, provider)
  {
    if e == [] {
      assert e + rest == rest;
    } else {
      assert (e + rest)[1..] == rest && e[1..] == [];
    }
  }

  lemma {:induction false} ReadingsAlternate(steps: Steps, updates: seq<Update>, provider: string)
    requires forall i | 0 <= i < |updates| :: WellKeyed(updates[i]) && updates[i].primed
    requires SlashFree(provider) && StepAt(steps, ReadingKey(provider)) <= 1
    ensures Alternate(PlanNotes(Notes(steps, updates), provider), provider, StepAt(steps, ReadingKey(provider)) == 1)
    decreases updates
  {
    hide UsageKey, ReadingKey, WellKeyed;
    if updates != [] {
      var u := updates[0];
      var next := steps[u.key := u.step];
      ReadingKeyIsPlan(u, provider);
      ReadingsAlternate(next, updates[1..], provider);
      PlanNotesOfFirst(Emitted(StepAt(steps, u.key), u), Notes(next, updates[1..]), provider);
      PlanNotesOfOne(StepAt(steps, u.key), u, provider);
      var said, rest := PlanNotes(Emitted(StepAt(steps, u.key), u), provider), PlanNotes(Notes(next, updates[1..]), provider);
      if said == [] {
        assert said + rest == rest;
      } else {
        assert (said + rest)[1..] == rest;
      }
    }
  }

  lemma ReadingKeyIsPlan(u: Update, provider: string)
    requires WellKeyed(u) && SlashFree(provider)
    ensures u.key == ReadingKey(provider) <==> u.source == Plan(provider)
    ensures u.key == ReadingKey(provider) ==> u.step <= 1
  {
    if u.source.Usage? {
      UsageIsNotReading(u, provider);
    } else {
      ReadingKeysStandApart(provider, u.source.provider, "", "");
    }
  }

  /** Each note flips the remembered state, and nothing else does. */
  lemma {:induction false} ReadingsCounted(steps: Steps, updates: seq<Update>, provider: string)
    requires forall i | 0 <= i < |updates| :: WellKeyed(updates[i]) && updates[i].primed
    requires SlashFree(provider) && StepAt(steps, ReadingKey(provider)) <= 1
    ensures var end, said := StepAt(After(steps, updates), ReadingKey(provider)), |PlanNotes(Notes(steps, updates), provider)|;
            end <= 1 && (said % 2 == 1 <==> end != StepAt(steps, ReadingKey(provider)))
    decreases updates
  {
    hide UsageKey, ReadingKey, WellKeyed;
    if updates != [] {
      var u := updates[0];
      var next := steps[u.key := u.step];
      ReadingKeyIsPlan(u, provider);
      ReadingsCounted(next, updates[1..], provider);
      PlanNotesOfFirst(Emitted(StepAt(steps, u.key), u), Notes(next, updates[1..]), provider);
      PlanNotesOfOne(StepAt(steps, u.key), u, provider);
    }
  }

  lemma PlanNotesOfOne(prev: nat, u: Update, provider: string)
    requires u.primed
    ensures PlanNotes(Emitted(prev, u), provider)
            == if u.source == Plan(provider) && u.step != prev then [if u.step == 1 then Stopped(provider) else Back(provider)] else []
  {
    var e := Emitted(prev, u);
    assert e != [] ==> e[1..] == [];
  }

  lemma UsageIsNotReading(u: Update, provider: string)
    requires WellKeyed(u) && u.source.Usage? && SlashFree(provider)
    ensures u.key != ReadingKey(provider)
  {
    if q, n, l :| u.key == WindowKey(q, n, l) {
      ReadingKeysStandApart(provider, q, n, l);
    } else {
      var q :| u.key == SpendKey(q);
      ReadingKeysStandApart(provider, q, "", "");
    }
  }

  /**
    Over any run, each plan's "stopped" and "is back" notes strictly alternate, and none is
    missed: the number said is odd exactly when the remembered state changed.
  */
  lemma PlanReadingsAlternate(steps: Steps, gs: seq<Option<GlanceView>>, provider: string)
    requires SlashFreeProviders(gs) && SlashFree(provider) && StepAt(steps, ReadingKey(provider)) <= 1
    ensures var updates := RunUpdates(gs, true);
            var said := PlanNotes(Notes(steps, updates), provider);
            Alternate(said, provider, StepAt(steps, ReadingKey(provider)) == 1)
            && (|said| % 2 == 1 <==> StepAt(After(steps, updates), ReadingKey(provider)) != StepAt(steps, ReadingKey(provider)))
  {
    RunIsWellKeyed(gs);
    ReadingsAlternate(steps, RunUpdates(gs, true), provider);
    ReadingsCounted(steps, RunUpdates(gs, true), provider);
  }
}
