/** What the alerter says when overlapping reads hand it glances out of order. */
module AlertOrder {
  import opened Basics
  import opened Glance
  import opened Alerts
  import opened AlertRuns
  import opened Refresh
  import opened RefreshProtocol

  type Parser = string -> Option<GlanceView>

  function Parsed(parse: Parser, fed: seq<string>): seq<Option<GlanceView>> {
    if fed == [] then [] else [parse(fed[0])] + Parsed(parse, fed[1..])
  }

  /** Everything a fresh alerter says of the glances it is given. */
  function Said(parse: Parser, fed: seq<string>): seq<Note> {
    Notes(map[], RunUpdates(Parsed(parse, fed), false))
  }

  function OneWindow(provider: string, w: Window): GlanceView {
    GlanceView([Report(provider, [w], 0.0, 0.0)], false)
  }

  lemma OneWindowUpdates(provider: string, w: Window, primed: bool)
    requires !w.stale
    ensures Updates(OneWindow(provider, w).reports, primed)
            == [Update(ReadingKey(provider), 0, Plan(provider), primed),
                Update(WindowKey(provider, w.name, w.vendorLabel), StepOf(w.used), Usage, primed)]
  {
    var r := OneWindow(provider, w).reports[0];
    assert [r][..0] == [] && [w][..0] == [];
    assert WindowMeasures(provider, [w]) == [Measure(WindowKey(provider, w.name, w.vendorLabel), w.used)];
    assert Measures([r]) == ReportMeasures(r);
    assert ReadingUpdates([r], primed) == ReadingUpdate(r, primed);
  }

  /** Of two glances of one window the second alone is spoken of, by how its step compares. */
  lemma TwoGlances(parse: Parser, first: string, second: string, provider: string, a: Window, b: Window)
    requires SlashFree(provider) && !a.stale && !b.stale && a.name == b.name && a.vendorLabel == b.vendorLabel
    requires parse(first) == Some(OneWindow(provider, a)) && parse(second) == Some(OneWindow(provider, b))
    ensures Said(parse, [first, second])
            == Emitted(StepOf(a.used), Update(WindowKey(provider, b.name, b.vendorLabel), StepOf(b.used), Usage, true))
  {
    var key := WindowKey(provider, a.name, a.vendorLabel);
    ReadingKeysStandApart(provider, provider, a.name, a.vendorLabel);
    OneWindowUpdates(provider, a, false);
    OneWindowUpdates(provider, b, true);
    var head, tail := Updates(OneWindow(provider, a).reports, false), Updates(OneWindow(provider, b).reports, true);
    ParsedTwo(parse, first, second);
    UpdatesOfTwo(OneWindow(provider, a), OneWindow(provider, b));
    AfterAppend(map[], head, tail);
    UnprimedIsQuiet(map[], head);
    assert [] + Notes(After(map[], head), tail) == Notes(After(map[], head), tail);
    LastTwo(map[], head[0], head[1]);
    LastTwo(After(map[], head), tail[0], tail[1]);
    assert StepAt(After(map[], head), key) == StepOf(a.used) && StepAt(After(map[], head), ReadingKey(provider)) == 0;
  }

  lemma ParsedTwo(parse: Parser, first: string, second: string)
    ensures Parsed(parse, [first, second]) == [parse(first), parse(second)]
  {
    assert [first, second][1..] == [second] && [second][1..] == [];
    assert Parsed(parse, [second]) == [parse(second)];
  }

  lemma UpdatesOfTwo(a: GlanceView, b: GlanceView)
    requires !a.failed && !b.failed
    ensures RunUpdates([Some(a), Some(b)], false) == Updates(a.reports, false) + Updates(b.reports, true)
  {
    hide Updates;
    assert [Some(a), Some(b)][1..] == [Some(b)] && [Some(b)][1..] == [];
    assert RunUpdates([Some(b)], true) == Updates(b.reports, true) + RunUpdates([], true);
  }

  lemma LastTwo(steps: Steps, u: Update, v: Update)
    ensures After(steps, [u, v]) == steps[u.key := u.step][v.key := v.step]
    ensures Notes(steps, [u, v]) == Emitted(StepAt(steps, u.key), u) + Emitted(StepAt(steps[u.key := u.step], v.key), v)
  {
    assert [u, v][1..] == [v];
    AfterOne(steps[u.key := u.step], v);
  }

  /**
    A reset that never happened: a window is first seen untouched and then past a step, by two
    overlapping reads. The alerter, fed in the order they complete, says nothing and then
    announces a reset; in the order the glances were computed it would have warned.
  */
  lemma OverlapAnnouncesAFalseReset(parse: Parser, older: string, newer: string, provider: string, low: Window, high: Window)
    returns (actions: seq<Action>, last: Action)
    requires SlashFree(provider) && !low.stale && !high.stale && low.name == high.name && low.vendorLabel == high.vendorLabel
    requires StepOf(low.used) == 0 < StepOf(high.used)
    requires parse(older) == Some(OneWindow(provider, low)) && parse(newer) == Some(OneWindow(provider, high))
    ensures AllEnabled(INITIAL, actions) && AllAnswered(INITIAL, actions, m => m)
    ensures var s := Run(INITIAL, actions);
            Enabled(s, last) && Answered(s, last, m => m) && GoodTimes(Do(s, last).completed) == [4, 3]
            && Said(parse, Do(s, last).fed) == [Reset(WindowKey(provider, low.name, low.vendorLabel))]
            && Said(parse, [older, newer]) == [Warning(WindowKey(provider, low.name, low.vendorLabel), StepOf(high.used))]
  {
    actions, last := OverlapCanGoBack(older, newer);
    TwoGlances(parse, newer, older, provider, high, low);
    TwoGlances(parse, older, newer, provider, low, high);
  }
}
