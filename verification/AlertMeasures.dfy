/**
  What the alerter measures, window by window, and what one glance makes it remember and say
  (apps/menubar/alerts.go).
*/
module AlertMeasures {
  import opened Basics
  import opened Glance
  import opened Alerts
  import opened AlertRuns

  // ----- every live figure, in order ---------------------------------------

  /** A live window of a plan, or at `k` zero the spend of a plan that reports no window. */
  predicate Measured(r: Report, k: nat) {
    (k < |r.windows| && !r.windows[k].stale) || (k == 0 && r.windows == [] && r.spendLimit > 0.0)
  }

  /** What is to be measured there: the key and the figure. */
  function MeasureAt(r: Report, k: nat): Measure
    requires Measured(r, k)
  {
    if r.windows == [] then Measure(r.provider + "/spend", r.spendPct)
    else Measure(r.provider + "/" + r.windows[k].name + "/" + r.windows[k].vendorLabel, r.windows[k].used)
  }

  /** How many measures come before it. */
  function Position(reports: seq<Report>, i: nat, k: nat): nat
    requires i < |reports| && k <= |reports[i].windows|
  {
    |Measures(reports[..i])| + |WindowMeasures(reports[i].provider, reports[i].windows[..k])|
  }

  lemma {:induction false} WindowPrefix(provider: string, windows: seq<Window>, k: nat)
    requires k <= |windows|
    ensures WindowMeasures(provider, windows[..k]) <= WindowMeasures(provider, windows)
  {
    if k == |windows| {
      assert windows[..k] == windows;
    } else {
      var front := windows[..|windows| - 1];
      WindowPrefix(provider, front, k);
      assert front[..k] == windows[..k];
    }
  }

  lemma {:induction false} MeasuresPrefix(reports: seq<Report>, i: nat)
    requires i <= |reports|
    ensures Measures(reports[..i]) <= Measures(reports)
  {
    if i == |reports| {
      assert reports[..i] == reports;
    } else {
      var front := reports[..|reports| - 1];
      MeasuresPrefix(front, i);
      assert front[..i] == reports[..i];
    }
  }

  lemma NextWindow(provider: string, windows: seq<Window>, k: nat)
    requires k < |windows|
    ensures WindowMeasures(provider, windows[..k + 1])
            == WindowMeasures(provider, windows[..k])
               + (if windows[k].stale then [] else [Measure(provider + "/" + windows[k].name + "/" + windows[k].vendorLabel, windows[k].used)])
  {
    assert windows[..k + 1][..k] == windows[..k];
  }

  lemma NextReport(reports: seq<Report>, i: nat)
    requires i < |reports|
    ensures Measures(reports[..i + 1]) == Measures(reports[..i]) + ReportMeasures(reports[i])
  {
    assert reports[..i + 1][..i] == reports[..i];
  }

  lemma InItsReport(r: Report, k: nat)
    requires Measured(r, k)
    ensures var at := |WindowMeasures(r.provider, r.windows[..k])|;
            at < |ReportMeasures(r)| && ReportMeasures(r)[at] == MeasureAt(r, k)
  {
    if r.windows != [] {
      NextWindow(r.provider, r.windows, k);
      WindowPrefix(r.provider, r.windows, k + 1);
    } else {
      assert r.windows[..k] == [];
    }
  }

  /** Every live window and every windowless plan's spend is measured, under its own key and with its own figure. */
  lemma EveryFigureIsMeasured(reports: seq<Report>, i: nat, k: nat)
    requires i < |reports| && Measured(reports[i], k)
    ensures Position(reports, i, k) < |Measures(reports)| && Measures(reports)[Position(reports, i, k)] == MeasureAt(reports[i], k)
  {
    InItsReport(reports[i], k);
    NextReport(reports, i);
    MeasuresPrefix(reports, i + 1);
  }

  /** In the order of the plans and of their windows. */
  lemma FiguresAreInOrder(reports: seq<Report>, i: nat, k: nat, i': nat, k': nat)
    requires i < |reports| && i' < |reports| && Measured(reports[i], k) && Measured(reports[i'], k')
    requires i < i' || (i == i' && k < k')
    ensures Position(reports, i, k) < Position(reports, i', k')
  {
    var r := reports[i];
    if i == i' {
      NextWindow(r.provider, r.windows, k);
      WindowPrefix(r.provider, r.windows[..k'], k + 1);
      assert r.windows[..k'][..k + 1] == r.windows[..k + 1];
    } else {
      InItsReport(r, k);
      NextReport(reports, i);
      MeasuresPrefix(reports[..i'], i + 1);
      assert reports[..i'][..i + 1] == reports[..i + 1];
    }
  }

  /** And nothing else is measured. */
  lemma {:induction false} EveryMeasureIsAFigure(reports: seq<Report>, j: nat) returns (i: nat, k: nat)
    requires j < |Measures(reports)|
    ensures i < |reports| && Measured(reports[i], k) && Position(reports, i, k) == j
  {
    var n := |reports| - 1;
    if j < |Measures(reports[..n])| {
      i, k := EveryMeasureIsAFigure(reports[..n], j);
      assert reports[..n][..i] == reports[..i];
    } else {
      i := n;
      var r := reports[n];
      if r.windows == [] {
        k := 0;
        assert r.windows[..0] == [] && WindowMeasures(r.provider, []) == [];
      } else {
        k := WindowOf(r.provider, r.windows, j - |Measures(reports[..n])|);
      }
    }
  }

  lemma {:induction false} WindowOf(provider: string, windows: seq<Window>, j: nat) returns (k: nat)
    requires j < |WindowMeasures(provider, windows)|
    ensures k < |windows| && !windows[k].stale && |WindowMeasures(provider, windows[..k])| == j
  {
    var n := |windows| - 1;
    if j < |WindowMeasures(provider, windows[..n])| {
      k := WindowOf(provider, windows[..n], j);
      assert windows[..n][..k] == windows[..k];
    } else {
      k := n;
    }
  }

  // ----- what one glance does to a key -------------------------------------

  /** No other figure, and no plan's reading, has the key of this one. */
  ghost predicate OnlyFigure(reports: seq<Report>, i: nat, k: nat)
    requires i < |reports| && Measured(reports[i], k)
  {
    var key := MeasureAt(reports[i], k).key;
    (forall i', k' | 0 <= i' < |reports| && 0 <= k' && Measured(reports[i'], k') && MeasureAt(reports[i'], k').key == key :: i' == i && k' == k)
    && forall r <- reports :: r.provider + "/reading" != key
  }

  lemma {:induction false} UsedAtOne(ms: seq<Measure>, key: string, j: nat)
    requires j < |ms| && ms[j].key == key && forall j' | 0 <= j' < |ms| && j' != j :: ms[j'].key != key
    ensures UsedAt(ms, key) == [ms[j].used]
  {
    if j == 0 {
      UsedAtNone(ms[1..], key);
    } else {
      UsedAtOne(ms[1..], key, j - 1);
      assert UsedAt(ms, key) == UsedAt(ms[1..], key);
    }
  }

  lemma {:induction false} UsedAtNone(ms: seq<Measure>, key: string)
    requires forall j | 0 <= j < |ms| :: ms[j].key != key
    ensures UsedAt(ms, key) == []
  {
    if ms != [] {
      UsedAtNone(ms[1..], key);
    }
  }

  lemma OnlyFigureIsUsed(reports: seq<Report>, i: nat, k: nat)
    requires i < |reports| && Measured(reports[i], k) && OnlyFigure(reports, i, k)
    ensures UsedAt(Measures(reports), MeasureAt(reports[i], k).key) == [MeasureAt(reports[i], k).used]
  {
    var m, j := MeasureAt(reports[i], k), Position(reports, i, k);
    EveryFigureIsMeasured(reports, i, k);
    forall j' | 0 <= j' < |Measures(reports)| && j' != j
      ensures Measures(reports)[j'].key != m.key
    {
      var i', k' := EveryMeasureIsAFigure(reports, j');
      EveryFigureIsMeasured(reports, i', k');
    }
    UsedAtOne(Measures(reports), m.key, j);
  }

  /** The notes about one usage key. */
  function KeyNotes(notes: seq<Note>, key: string): seq<Note> {
    if notes == [] then []
    else (if (notes[0].Warning? || notes[0].Reset?) && notes[0].key == key then [notes[0]] else []) + KeyNotes(notes[1..], key)
  }

  lemma KeyNotesOfFirst(e: seq<Note>, rest: seq<Note>, key: string)
    requires |e| <= 1
    ensures KeyNotes(e + rest, key) == KeyNotes(e, key) + KeyNotes(rest, key)
  {
    if e == [] {
      assert e + rest == rest;
    } else {
      assert (e + rest)[0] == e[0] && (e + rest)[1..] == rest && e[1..] == [];
    }
  }

  /** What the alerter says of a step, given the one before. */
  function StepNotes(prev: nat, key: string, step: nat, primed: bool): seq<Note> {
    if primed && step > prev then [Warning(key, step)] else if primed && step == 0 < prev then [Reset(key)] else []
  }

  lemma KeyNotesOfOne(prev: nat, u: Update, key: string)
    requires u.key == key ==> u.source.Usage?
    ensures KeyNotes(Emitted(prev, u), key) == if u.key == key then StepNotes(prev, key, u.step, u.primed) else []
  {
    var e := Emitted(prev, u);
    assert e != [] ==> e[1..] == [];
  }

  lemma EmitsAtMostOne(prev: nat, u: Update)
    ensures |Emitted(prev, u)| <= 1
  {
  }

  lemma {:induction false} NoUpdate(steps: Steps, updates: seq<Update>, key: string)
    requires Keyed(updates, key) == []
    ensures StepAt(After(steps, updates), key) == StepAt(steps, key) && KeyNotes(Notes(steps, updates), key) == []
    decreases updates
  {
    hide Emitted, KeyNotes;
    if updates == [] {
      NothingNoted(key);
    } else {
      var u := updates[0];
      var next := steps[u.key := u.step];
      assert u.key != key && Keyed(updates, key) == Keyed(updates[1..], key);
      NoUpdate(next, updates[1..], key);
      EmitsAtMostOne(StepAt(steps, u.key), u);
      KeyNotesOfFirst(Emitted(StepAt(steps, u.key), u), Notes(next, updates[1..]), key);
      KeyNotesOfOne(StepAt(steps, u.key), u, key);
    }
  }

  lemma NothingNoted(key: string)
    ensures KeyNotes([], key) == []
  {
  }

  lemma {:induction false} OneUpdate(steps: Steps, updates: seq<Update>, key: string, step: nat, primed: bool)
    requires Keyed(updates, key) == [step]
    requires forall i | 0 <= i < |updates| && updates[i].key == key :: updates[i].source.Usage? && updates[i].primed == primed
    ensures StepAt(After(steps, updates), key) == step
    ensures KeyNotes(Notes(steps, updates), key) == StepNotes(StepAt(steps, key), key, step, primed)
    decreases updates
  {
    hide Emitted, KeyNotes, StepNotes;
    var u := updates[0];
    var next := steps[u.key := u.step];
    EmitsAtMostOne(StepAt(steps, u.key), u);
    KeyNotesOfFirst(Emitted(StepAt(steps, u.key), u), Notes(next, updates[1..]), key);
    KeyNotesOfOne(StepAt(steps, u.key), u, key);
    if u.key == key {
      assert Keyed(updates, key) == [u.step] + Keyed(updates[1..], key);
      assert Keyed(updates, key)[0] == u.step && Keyed(updates, key)[1..] == Keyed(updates[1..], key);
      NoUpdate(next, updates[1..], key);
      var said := StepNotes(StepAt(steps, key), key, step, primed);
      assert said + [] == said;
    } else {
      assert Keyed(updates, key) == Keyed(updates[1..], key);
      OneUpdate(next, updates[1..], key, step, primed);
      var rest := KeyNotes(Notes(next, updates[1..]), key);
      assert [] + rest == rest;
    }
  }

  /**
    After a readable glance the step remembered for a figure that alone has its key is the step of that
    figure. A rise is warned of with that step, a return to none is a reset, and nothing else is said
    of it; the first glance of all says nothing.
  */
  lemma FigureIsObserved(steps: Steps, reports: seq<Report>, primed: bool, i: nat, k: nat)
    requires i < |reports| && Measured(reports[i], k) && OnlyFigure(reports, i, k)
    ensures var m := MeasureAt(reports[i], k);
            var prev, step := StepAt(steps, m.key), StepOf(m.used);
            StepAt(After(steps, Updates(reports, primed)), m.key) == step
            && KeyNotes(Notes(steps, Updates(reports, primed)), m.key)
               == if primed && step > prev then [Warning(m.key, step)] else if primed && step == 0 < prev then [Reset(m.key)] else []
  {
    var m := MeasureAt(reports[i], k);
    var first, ms := ReadingUpdates(reports, primed), Measures(reports);
    var second := UsageUpdates(ms, primed);
    OnlyFigureIsUsed(reports, i, k);
    KeyedUsage(ms, primed, m.key);
    KeyedAppend(first, second, m.key);
    ReadingUpdatesShape(reports, primed);
    forall j | 0 <= j < |first|
      ensures first[j].key != m.key
    {
      assert exists r <- reports :: r.provider == first[j].source.provider;
    }
    UntouchedIsUnkeyed(first, m.key);
    assert StepsFor([m.used]) == [StepOf(m.used)] by { assert [m.used][1..] == []; }
    assert Keyed(first + second, m.key) == [StepOf(m.used)];
    OneUpdate(steps, first + second, m.key, StepOf(m.used), primed);
  }

  // ----- what one glance does to a plan's reading --------------------------

  lemma {:induction false} ReadingIsUpdated(reports: seq<Report>, primed: bool, i: nat)
    requires i < |reports| && reports[i].windows != []
    requires forall i' | 0 <= i' < |reports| && reports[i'].windows != [] && reports[i'].provider == reports[i].provider :: i' == i
    ensures Keyed(ReadingUpdates(reports, primed), ReadingKey(reports[i].provider))
            == [if forall w <- reports[i].windows :: w.stale then 1 else 0]
  {
    hide ReadingKey, Keyed, StoppedStep;
    var n := |reports| - 1;
    var front, last, p := reports[..n], reports[n], reports[i].provider;
    KeyedAppend(ReadingUpdates(front, primed), ReadingUpdate(last, primed), ReadingKey(p));
    OneReadingKeyed(last, primed, p);
    if i == n {
      NoReading(front, primed, p);
      StoppedExactly(last);
    } else {
      assert front[i] == reports[i];
      ReadingIsUpdated(front, primed, i);
    }
  }

  lemma OneReadingKeyed(r: Report, primed: bool, provider: string)
    ensures Keyed(ReadingUpdate(r, primed), ReadingKey(provider)) == if r.windows != [] && r.provider == provider then [StoppedStep(r)] else []
  {
    if r.windows != [] {
      SameKeySamePlan(r.provider, provider);
      OneKeyed(ReadingUpdate(r, primed)[0], ReadingKey(provider));
    }
  }

  lemma StoppedExactly(r: Report)
    ensures StoppedStep(r) == if forall w <- r.windows :: w.stale then 1 else 0
  {
    assert forall j | 0 <= j < |r.windows| :: r.windows[j] in r.windows;
  }

  lemma OneKeyed(u: Update, key: string)
    ensures Keyed([u], key) == if u.key == key then [u.step] else []
  {
    assert [u][1..] == [];
  }

  lemma SameKeySamePlan(p: string, q: string)
    ensures ReadingKey(p) == ReadingKey(q) ==> p == q
  {
    if ReadingKey(p) == ReadingKey(q) {
      assert |p| == |q| && ReadingKey(p)[..|p|] == p && ReadingKey(q)[..|q|] == q;
    }
  }

  lemma {:induction false} NoReading(reports: seq<Report>, primed: bool, provider: string)
    requires forall i | 0 <= i < |reports| && reports[i].windows != [] :: reports[i].provider != provider
    ensures Keyed(ReadingUpdates(reports, primed), ReadingKey(provider)) == []
  {
    hide ReadingKey;
    if reports != [] {
      var n := |reports| - 1;
      NoReading(reports[..n], primed, provider);
      KeyedAppend(ReadingUpdates(reports[..n], primed), ReadingUpdate(reports[n], primed), ReadingKey(provider));
      if reports[n].windows != [] {
        SameKeySamePlan(reports[n].provider, provider);
        OneKeyed(ReadingUpdate(reports[n], primed)[0], ReadingKey(provider));
      }
    }
  }

  /** What the alerter says of a plan's reading, given the one before. */
  function ReadingNotes(prev: nat, provider: string, stopped: bool, primed: bool): seq<Note> {
    if !primed || prev == (if stopped then 1 else 0) then [] else if stopped then [Stopped(provider)] else [Back(provider)]
  }

  lemma ReadingNotesOfOne(prev: nat, u: Update, provider: string)
    requires u.step <= 1 || u.source.Usage?
    ensures PlanNotes(Emitted(prev, u), provider)
            == if u.source == Plan(provider) then ReadingNotes(prev, provider, u.step == 1, u.primed) else []
  {
    var e := Emitted(prev, u);
    assert e != [] ==> e[1..] == [];
  }

  lemma {:induction false} NoPlanUpdate(steps: Steps, updates: seq<Update>, provider: string)
    requires Keyed(updates, ReadingKey(provider)) == []
    requires forall i | 0 <= i < |updates| :: updates[i].key == ReadingKey(provider) <==> updates[i].source == Plan(provider)
    requires forall i | 0 <= i < |updates| :: updates[i].step <= 1 || updates[i].source.Usage?
    ensures StepAt(After(steps, updates), ReadingKey(provider)) == StepAt(steps, ReadingKey(provider))
    ensures PlanNotes(Notes(steps, updates), provider) == []
    decreases updates
  {
    hide ReadingKey, Emitted;
    if updates != [] {
      var u, key := updates[0], ReadingKey(provider);
      var next := steps[u.key := u.step];
      assert u.key != key && Keyed(updates, key) == Keyed(updates[1..], key);
      NoPlanUpdate(next, updates[1..], provider);
      EmitsAtMostOne(StepAt(steps, u.key), u);
      PlanNotesOfFirst(Emitted(StepAt(steps, u.key), u), Notes(next, updates[1..]), provider);
      ReadingNotesOfOne(StepAt(steps, u.key), u, provider);
    }
  }

  lemma {:induction false} OnePlanUpdate(steps: Steps, updates: seq<Update>, provider: string, stopped: bool, primed: bool)
    requires Keyed(updates, ReadingKey(provider)) == [if stopped then 1 else 0]
    requires forall i | 0 <= i < |updates| :: updates[i].key == ReadingKey(provider) <==> updates[i].source == Plan(provider)
    requires forall i | 0 <= i < |updates| :: updates[i].primed == primed && (updates[i].step <= 1 || updates[i].source.Usage?)
    ensures StepAt(After(steps, updates), ReadingKey(provider)) == if stopped then 1 else 0
    ensures PlanNotes(Notes(steps, updates), provider) == ReadingNotes(StepAt(steps, ReadingKey(provider)), provider, stopped, primed)
    decreases updates
  {
    hide ReadingKey, Emitted, PlanNotes, ReadingNotes;
    var u, key := updates[0], ReadingKey(provider);
    var next := steps[u.key := u.step];
    EmitsAtMostOne(StepAt(steps, u.key), u);
    PlanNotesOfFirst(Emitted(StepAt(steps, u.key), u), Notes(next, updates[1..]), provider);
    ReadingNotesOfOne(StepAt(steps, u.key), u, provider);
    if u.key == key {
      assert Keyed(updates, key) == [u.step] + Keyed(updates[1..], key);
      assert Keyed(updates, key)[0] == u.step && Keyed(updates, key)[1..] == Keyed(updates[1..], key);
      NoPlanUpdate(next, updates[1..], provider);
      var said := ReadingNotes(StepAt(steps, key), provider, stopped, primed);
      assert said + [] == said;
    } else {
      assert Keyed(updates, key) == Keyed(updates[1..], key);
      OnePlanUpdate(next, updates[1..], provider, stopped, primed);
      var rest := PlanNotes(Notes(next, updates[1..]), provider);
      assert [] + rest == rest;
    }
  }

  /**
    After a readable glance a plan with windows is remembered as stopped exactly when all of them are
    stale, and the one change, either way, is said; the first glance of all says nothing.
  */
  lemma ReadingIsObserved(steps: Steps, reports: seq<Report>, primed: bool, i: nat)
    requires i < |reports| && reports[i].windows != [] && forall r <- reports :: SlashFree(r.provider)
    requires forall i' | 0 <= i' < |reports| && reports[i'].windows != [] && reports[i'].provider == reports[i].provider :: i' == i
    ensures var p, prev := reports[i].provider, StepAt(steps, reports[i].provider + "/reading");
            var stopped := forall w <- reports[i].windows :: w.stale;
            StepAt(After(steps, Updates(reports, primed)), p + "/reading") == (if stopped then 1 else 0)
            && PlanNotes(Notes(steps, Updates(reports, primed)), p)
               == if !primed || prev == (if stopped then 1 else 0) then [] else if stopped then [Stopped(p)] else [Back(p)]
  {
    var p := reports[i].provider;
    var first, ms := ReadingUpdates(reports, primed), Measures(reports);
    var second := UsageUpdates(ms, primed);
    ReadingIsUpdated(reports, primed, i);
    KeyedAppend(first, second, ReadingKey(p));
    UsageIsNoReading(reports, primed, p);
    UntouchedIsUnkeyed(second, ReadingKey(p));
    ReadingUpdatesShape(reports, primed);
    var all := first + second;
    forall j | 0 <= j < |all|
      ensures (all[j].key == ReadingKey(p) <==> all[j].source == Plan(p)) && all[j].primed == primed
      ensures all[j].step <= 1 || all[j].source.Usage?
    {
      if j < |first| {
        SameKeySamePlan(first[j].source.provider, p);
      }
    }
    var stopped := forall w <- reports[i].windows :: w.stale;
    assert Keyed(all, ReadingKey(p)) == [if stopped then 1 else 0] + [];
    OnePlanUpdate(steps, all, p, stopped, primed);
  }

  lemma UsageIsNoReading(reports: seq<Report>, primed: bool, p: string)
    requires SlashFree(p)
    ensures Untouched(UsageUpdates(Measures(reports), primed), ReadingKey(p))
  {
    var ms := Measures(reports);
    forall j | 0 <= j < |ms|
      ensures ms[j].key != ReadingKey(p)
    {
      var i, k := EveryMeasureIsAFigure(reports, j);
      EveryFigureIsMeasured(reports, i, k);
      var r := reports[i];
      if r.windows == [] {
        ReadingKeysStandApart(p, r.provider, "", "");
      } else {
        ReadingKeysStandApart(p, r.provider, r.windows[k].name, r.windows[k].vendorLabel);
      }
    }
  }
}
