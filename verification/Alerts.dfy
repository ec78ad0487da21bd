/**
  The alerter (apps/menubar/alerts.go): successive glances turned into notifications, with a
  step remembered per key. Wording is left to the caller; a note says what happened to what.
*/
module Alerts {
  import opened Basics
  import opened Glance

  datatype Note =
    | Warning(key: string, step: nat)
    | Reset(key: string)
    | Stopped(provider: string)
    | Back(provider: string)

  function WindowKey(provider: string, name: string, tag: string): string { provider + "/" + name + "/" + tag }

  function SpendKey(provider: string): string { provider + "/spend" }

  function ReadingKey(provider: string): string { provider + "/reading" }

  datatype Source = Usage | Plan(provider: string)

  /** One assignment `steps[key] = step`, and whether it may notify. */
  datatype Update = Update(key: string, step: nat, source: Source, primed: bool)

  type Steps = map<string, nat>

  /** A missing key reads as zero, as in Go. */
  function StepAt(steps: Steps, key: string): nat { if key in steps then steps[key] else 0 }

  function NoteOf(prev: nat, u: Update): Option<Note> {
    if !u.primed then None
    else match u.source
      case Usage =>
        if u.step > prev then Some(Warning(u.key, u.step))
        else if u.step == 0 && prev > 0 then Some(Reset(u.key))
        else None
      case Plan(provider) =>
        if u.step == prev then None else if u.step == 1 then Some(Stopped(provider)) else Some(Back(provider))
  }

  function Emitted(prev: nat, u: Update): seq<Note> {
    if NoteOf(prev, u).Some? then [NoteOf(prev, u).value] else []
  }

  function After(steps: Steps, updates: seq<Update>): Steps
    decreases updates
  {
    if updates == [] then steps else After(steps[updates[0].key := updates[0].step], updates[1..])
  }

  function Notes(steps: Steps, updates: seq<Update>): seq<Note>
    decreases updates
  {
    if updates == [] then []
    else Emitted(StepAt(steps, updates[0].key), updates[0]) + Notes(steps[updates[0].key := updates[0].step], updates[1..])
  }

  // ----- what a glance updates ---------------------------------------------

  /** A plan every one of whose windows has gone stale is no longer being read. */
  function StoppedStep(r: Report): nat {
    if forall i | 0 <= i < |r.windows| :: r.windows[i].stale then 1 else 0
  }

  function ReadingUpdate(r: Report, primed: bool): seq<Update> {
    if r.windows == [] then [] else [Update(ReadingKey(r.provider), StoppedStep(r), Plan(r.provider), primed)]
  }

  function ReadingUpdates(reports: seq<Report>, primed: bool): seq<Update> {
    if reports == [] then []
    else ReadingUpdates(reports[..|reports| - 1], primed) + ReadingUpdate(reports[|reports| - 1], primed)
  }

  datatype Measure = Measure(key: string, used: real)

  function WindowMeasures(provider: string, windows: seq<Window>): seq<Measure> {
    if windows == [] then []
    else
      var w := windows[|windows| - 1];
      WindowMeasures(provider, windows[..|windows| - 1])
      + (if w.stale then [] else [Measure(WindowKey(provider, w.name, w.vendorLabel), w.used)])
  }

  function ReportMeasures(r: Report): seq<Measure> {
    if r.windows == [] && r.spendLimit > 0.0 then [Measure(SpendKey(r.provider), r.spendPct)]
    else WindowMeasures(r.provider, r.windows)
  }

  /** `measures`: every live window, and the spend of a plan that reports no window. */
  function Measures(reports: seq<Report>): seq<Measure> {
    if reports == [] then [] else Measures(reports[..|reports| - 1]) + ReportMeasures(reports[|reports| - 1])
  }

  method ListMeasures(reports: seq<Report>) returns (out: seq<Measure>)
    ensures out == Measures(reports)
  {
    out := [];
    for i := 0 to |reports|
      invariant out == Measures(reports[..i])
    {
      assert reports[..i + 1][..i] == reports[..i];
      var r := reports[i];
      ghost var before := out;
      for k := 0 to |r.windows|
        invariant out == before + WindowMeasures(r.provider, r.windows[..k])
      {
        assert r.windows[..k + 1][..k] == r.windows[..k];
        var w := r.windows[k];
        if w.stale {
          continue;
        }
        out := out + [Measure(WindowKey(r.provider, w.name, w.vendorLabel), w.used)];
      }
      assert r.windows[..|r.windows|] == r.windows;
      if |r.windows| == 0 && r.spendLimit > 0.0 {
        out := out + [Measure(SpendKey(r.provider), r.spendPct)];
      }
    }
    assert reports[..|reports|] == reports;
  }

  function UsageUpdates(ms: seq<Measure>, primed: bool): seq<Update> {
    seq(|ms|, i requires 0 <= i < |ms| => Update(ms[i].key, StepOf(ms[i].used), Usage, primed))
  }

  /** Everything one readable glance assigns, in order. */
  function Updates(reports: seq<Report>, primed: bool): seq<Update> {
    ReadingUpdates(reports, primed) + UsageUpdates(Measures(reports), primed)
  }

  predicate Readable(g: Option<GlanceView>) { g.Some? && !g.value.failed }

  lemma {:induction false} AfterAppend(steps: Steps, x: seq<Update>, y: seq<Update>)
    ensures After(steps, x + y) == After(After(steps, x), y)
    ensures Notes(steps, x + y) == Notes(steps, x) + Notes(After(steps, x), y)
    decreases x
  {
    if x == [] {
      assert x + y == y;
    } else {
      assert (x + y)[0] == x[0] && (x + y)[1..] == x[1..] + y;
      AfterAppend(steps[x[0].key := x[0].step], x[1..], y);
    }
  }

  lemma AfterOne(steps: Steps, u: Update)
    ensures After(steps, [u]) == steps[u.key := u.step] && Notes(steps, [u]) == Emitted(StepAt(steps, u.key), u)
  {
    assert [u][1..] == [];
  }

  // ----- the object --------------------------------------------------------

  class Alerter {
    var steps: Steps
    var primed: bool

    constructor ()
      ensures steps == map[] && !primed
    {
      steps, primed := map[], false;
    }

    /** `reading`: a plan that stopped being read, or is back. */
    method Reading(r: Report) returns (note: Option<Note>)
      modifies this`steps
      ensures steps == After(old(steps), ReadingUpdate(r, primed))
      ensures (if note.Some? then [note.value] else []) == Notes(old(steps), ReadingUpdate(r, primed))
    {
      if |r.windows| == 0 {
        return None;
      }
      var stopped := 1;
      for i := 0 to |r.windows|
        invariant stopped == if forall k | 0 <= k < i :: r.windows[k].stale then 1 else 0
      {
        if !r.windows[i].stale {
          stopped := 0;
        }
      }
      var key := ReadingKey(r.provider);
      var prev := StepAt(steps, key);
      AfterOne(steps, Update(key, stopped, Plan(r.provider), primed));
      steps := steps[key := stopped];
      if !primed || stopped == prev {
        return None;
      }
      if stopped == 1 {
        return Some(Stopped(r.provider));
      }
      return Some(Back(r.provider));
    }

    /** The first loop of `observe`: every plan's reading. */
    method ObserveReadings(reports: seq<Report>) returns (out: seq<Note>)
      modifies this`steps
      ensures out == Notes(old(steps), ReadingUpdates(reports, primed))
      ensures steps == After(old(steps), ReadingUpdates(reports, primed))
    {
      out := [];
      for i := 0 to |reports|
        invariant steps == After(old(steps), ReadingUpdates(reports[..i], primed))
        invariant out == Notes(old(steps), ReadingUpdates(reports[..i], primed))
      {
        assert reports[..i + 1][..i] == reports[..i];
        AfterAppend(old(steps), ReadingUpdates(reports[..i], primed), ReadingUpdate(reports[i], primed));
        var n := Reading(reports[i]);
        if n.Some? {
          out := out + [n.value];
        }
      }
      assert reports[..|reports|] == reports;
    }

    /** The second loop of `observe`: every measure's step. */
    method ObserveUsage(ms: seq<Measure>) returns (out: seq<Note>)
      modifies this`steps
      ensures out == Notes(old(steps), UsageUpdates(ms, primed))
      ensures steps == After(old(steps), UsageUpdates(ms, primed))
    {
      out := [];
      ghost var updates := UsageUpdates(ms, primed);
      assert updates[..0] == [];
      for i := 0 to |ms|
        invariant steps == After(old(steps), updates[..i])
        invariant out == Notes(old(steps), updates[..i])
      {
        assert updates[..i + 1] == updates[..i] + [updates[i]];
        AfterAppend(old(steps), updates[..i], [updates[i]]);
        AfterOne(steps, updates[i]);
        var m := ms[i];
        var step := CountSteps(m.used);
        var prev := StepAt(steps, m.key);
        steps := steps[m.key := step];
        if primed && step > prev {
          out := out + [Warning(m.key, step)];
        } else if primed && step == 0 && prev > 0 {
          out := out + [Reset(m.key)];
        }
      }
      assert updates[..|ms|] == updates;
    }

    /** `observe`: an unreadable answer changes nothing; the first readable one only primes. */
    method Observe(g: Option<GlanceView>) returns (out: seq<Note>)
      modifies this
      ensures !Readable(g) ==> out == [] && steps == old(steps) && primed == old(primed)
      ensures Readable(g) ==>
                out == Notes(old(steps), Updates(g.value.reports, old(primed)))
                && steps == After(old(steps), Updates(g.value.reports, old(primed))) && primed
    {
      if g.None? || g.value.failed {
        return [];
      }
      var reports := g.value.reports;
      out := ObserveReadings(reports);
      var ms := ListMeasures(reports);
      var more := ObserveUsage(ms);
      AfterAppend(old(steps), ReadingUpdates(reports, primed), UsageUpdates(ms, primed));
      out := out + more;
      primed := true;
    }
  }
}
