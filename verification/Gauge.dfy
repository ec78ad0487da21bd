/**
  What the tray shows (apps/menubar/status.go): the plan the icon follows, the level
  its gauge is filled to, and the pixels drawn for a level.
*/
module Gauge {
  import opened Basics
  import opened Glance

  datatype Title = NoTitle | Dash | AppName | Plan(provider: string, left: real)

  datatype Status = Status(title: Title, pct: real, known: bool, stale: bool)

  const ZERO := Status(NoTitle, 0.0, false, false)

  // ----- one plan ----------------------------------------------------------

  /** The running best over a plan's windows; of equals the later one. */
  function Busiest(provider: string, windows: seq<Window>): Status {
    if windows == [] then ZERO
    else
      var rs, w := Busiest(provider, windows[..|windows| - 1]), windows[|windows| - 1];
      if w.used >= rs.pct then rs.(pct := w.used, stale := w.stale, title := Plan(provider, Left(w.used))) else rs
  }

  /** `reportStatus` without its tooltip lines. */
  function ReportStatus(r: Report): Status {
    if r.windows == [] && r.spendLimit > 0.0
    then ZERO.(pct := r.spendPct, title := Plan(r.provider, Left(r.spendPct)))
    else Busiest(r.provider, r.windows)
  }

  method MeasureReport(r: Report) returns (rs: Status)
    ensures rs == ReportStatus(r)
  {
    rs := ZERO;
    for i := 0 to |r.windows|
      invariant rs == Busiest(r.provider, r.windows[..i])
    {
      assert r.windows[..i + 1][..i] == r.windows[..i];
      var w := r.windows[i];
      if w.used >= rs.pct {
        rs := rs.(pct := w.used, stale := w.stale, title := Plan(r.provider, Left(w.used)));
      }
    }
    assert r.windows[..|r.windows|] == r.windows;
    if r.windows == [] && r.spendLimit > 0.0 {
      rs := rs.(pct := r.spendPct, title := Plan(r.provider, Left(r.spendPct)));
    }
  }

  /** Whether the plan has a figure to show. */
  predicate HasReading(r: Report) { ReportStatus(r).title != NoTitle }

  // ----- across plans ------------------------------------------------------

  /** The tightest plan so far; of equals the earlier one. */
  function Tightest(reports: seq<Report>): Option<Status> {
    if reports == [] then None
    else
      var best, r := Tightest(reports[..|reports| - 1]), reports[|reports| - 1];
      var rs := ReportStatus(r).(known := true);
      if HasReading(r) && (best.None? || rs.pct > best.value.pct) then Some(rs) else best
  }

  /** The last plan of the pinned provider that has a reading. */
  function Pinned(reports: seq<Report>, ring: string): Option<Status> {
    if reports == [] || ring == "" then None
    else
      var r := reports[|reports| - 1];
      if HasReading(r) && r.provider == ring then Some(ReportStatus(r).(known := true))
      else Pinned(reports[..|reports| - 1], ring)
  }

  /** `statusOf` without its tooltip; `None` is an answer that does not parse. */
  function StatusOf(g: Option<GlanceView>, ring: string): Status {
    if g.None? || g.value.failed then ZERO.(title := Dash)
    else
      var best, pinned := Tightest(g.value.reports), Pinned(g.value.reports, ring);
      if best.None? then ZERO.(title := AppName)
      else if pinned.Some? then pinned.value
      else best.value
  }

  method PickStatus(g: Option<GlanceView>, ring: string) returns (best: Status)
    ensures best == StatusOf(g, ring)
  {
    if g.None? || g.value.failed {
      return ZERO.(title := Dash);
    }
    var reports := g.value.reports;
    best := ZERO;
    var pinned, found, pinnedFound := ZERO, false, false;
    for i := 0 to |reports|
      invariant Tightest(reports[..i]) == if found then Some(best) else None
      invariant Pinned(reports[..i], ring) == if pinnedFound then Some(pinned) else None
      invariant pinnedFound ==> found
    {
      assert reports[..i + 1][..i] == reports[..i];
      var rs := MeasureReport(reports[i]);
      if rs.title == NoTitle {
        continue;
      }
      rs := rs.(known := true);
      if !found || rs.pct > best.pct {
        best, found := rs, true;
      }
      if ring != "" && reports[i].provider == ring {
        pinned, pinnedFound := rs, true;
      }
    }
    assert reports[..|reports|] == reports;
    if pinnedFound {
      best := pinned;
    }
    if !found {
      return ZERO.(title := AppName);
    }
  }

  // ----- the level ---------------------------------------------------------

  const GAUGE_STEPS := 8
  const GAUGE_UNKNOWN := -1

  function Ceil(x: real): int { -((-x).Floor) }

  /** The fill for a share used. */
  function Level(used: real): int {
    var l := Left(used);
    if l <= 0.0 then 0
    else if l >= 100.0 then GAUGE_STEPS
    else
      var steps := Ceil(l / 100.0 * 8.0);
      var atLeastOne := if steps > 1 then steps else 1;
      if atLeastOne < GAUGE_STEPS - 1 then atLeastOne else GAUGE_STEPS - 1
  }

  function GaugeLevel(st: Status): int {
    if !st.known || st.stale then GAUGE_UNKNOWN else Level(st.pct)
  }

  /** Empty is used up and nothing else, full is untouched and nothing else, in the alerts' own terms. */
  lemma EmptyAndFullAreExact(used: real)
    ensures 0 <= Level(used) <= GAUGE_STEPS
    ensures Level(used) == 0 <==> StepOf(used) == 3
    ensures Level(used) == GAUGE_STEPS <==> used <= 0.0
  {
  }

  /** Between empty and full any headroom rounds up to a step of an eighth, and stops one short of full. */
  lemma LevelRoundsUp(used: real)
    requires 0.0 < used < 100.0
    ensures var level := Level(used);
            1 <= level < GAUGE_STEPS
            && (level - 1) as real * 12.5 < Left(used) && (level < GAUGE_STEPS - 1 ==> Left(used) <= level as real * 12.5)
  {
    var x := Left(used) / 100.0 * 8.0;
    assert Ceil(x) as real - 1.0 < x <= Ceil(x) as real;
  }

  /** Less left is never a fuller gauge. */
  lemma LevelFalls(a: real, b: real)
    requires a <= b
    ensures Level(a) >= Level(b)
  {
    var x, y := Left(b) / 100.0 * 8.0, Left(a) / 100.0 * 8.0;
    assert Left(b) <= Left(a);
    assert x <= y;
    assert (-y).Floor <= (-x).Floor;
  }

  /** The figures a plan is measured by: its windows at or above zero, else its spend. */
  function Figures(r: Report): seq<real> {
    if r.windows == [] && r.spendLimit > 0.0 then [r.spendPct] else UsedOf(r.windows)
  }

  function UsedOf(windows: seq<Window>): seq<real> {
    if windows == [] then []
    else
      var w := windows[|windows| - 1];
      UsedOf(windows[..|windows| - 1]) + (if w.used >= 0.0 then [w.used] else [])
  }

  function AllFigures(reports: seq<Report>): seq<real> {
    if reports == [] then [] else AllFigures(reports[..|reports| - 1]) + Figures(reports[|reports| - 1])
  }

  /** The largest figure, attained. */
  predicate Largest(x: real, figures: seq<real>) { x in figures && forall f <- figures :: f <= x }

  /** The last window with that share used, and whether its reading is stale. */
  predicate LastAt(windows: seq<Window>, used: real, stale: bool) {
    exists i | 0 <= i < |windows| ::
      windows[i].used == used && windows[i].stale == stale && forall j | i < j < |windows| :: windows[j].used < used
  }

  lemma {:induction false} BusiestIsLargest(provider: string, windows: seq<Window>)
    ensures var b := Busiest(provider, windows);
            b.pct >= 0.0 && !b.known
            && (UsedOf(windows) == [] <==> b.title == NoTitle) && (b.title == NoTitle ==> b == ZERO)
            && (UsedOf(windows) != [] ==> Largest(b.pct, UsedOf(windows)))
            && (b.stale ==> exists w <- windows :: w.stale)
            && (b.title != NoTitle ==> b.title == Plan(provider, Left(b.pct)) && LastAt(windows, b.pct, b.stale))
  {
    if windows != [] {
      var front := windows[..|windows| - 1];
      BusiestIsLargest(provider, front);
      BusiestIsLast(provider, windows);
      assert forall w <- front :: w in windows;
      assert windows[|windows| - 1] in windows;
    }
  }

  lemma BusiestIsLast(provider: string, windows: seq<Window>)
    requires windows != []
    requires var front := windows[..|windows| - 1];
             Busiest(provider, front).title != NoTitle ==> LastAt(front, Busiest(provider, front).pct, Busiest(provider, front).stale)
    ensures var b := Busiest(provider, windows); b.title != NoTitle ==> LastAt(windows, b.pct, b.stale)
  {
    var front, w := windows[..|windows| - 1], windows[|windows| - 1];
    var rs := Busiest(provider, front);
    if w.used >= rs.pct {
      assert windows[|windows| - 1].used == w.used;
    } else if rs.title != NoTitle {
      var i :| 0 <= i < |front| && front[i].used == rs.pct && front[i].stale == rs.stale && forall j | i < j < |front| :: front[j].used < rs.pct;
      assert windows[i] == front[i];
      forall j | i < j < |windows|
        ensures windows[j].used < rs.pct
      {
        assert j < |front| ==> windows[j] == front[j];
      }
    }
  }

  lemma ReportIsLargest(r: Report)
    ensures var rs := ReportStatus(r);
            (HasReading(r) <==> Figures(r) != [])
            && (HasReading(r) ==> Largest(rs.pct, Figures(r)) && rs.title == Plan(r.provider, Left(rs.pct)))
            && (HasReading(r) && r.windows != [] ==> LastAt(r.windows, rs.pct, rs.stale))
            && (rs.stale ==> exists w <- r.windows :: w.stale)
  {
    BusiestIsLargest(r.provider, r.windows);
  }

  predicate Fresh(reports: seq<Report>) {
    forall r <- reports :: forall w <- r.windows :: !w.stale
  }

  lemma {:induction false} TightestIsLargest(reports: seq<Report>)
    ensures Tightest(reports).Some? <==> AllFigures(reports) != []
    ensures Tightest(reports).Some? ==> Largest(Tightest(reports).value.pct, AllFigures(reports)) && Tightest(reports).value.known
    ensures Tightest(reports).Some? && Fresh(reports) ==> !Tightest(reports).value.stale
  {
    if reports != [] {
      var front, r := reports[..|reports| - 1], reports[|reports| - 1];
      TightestIsLargest(front);
      ReportIsLargest(r);
      assert forall q <- front :: q in reports;
      assert r in reports;
    }
  }

  /** The lowest of the levels of some figures. */
  predicate LowestLevel(level: int, figures: seq<real>) {
    (exists f <- figures :: Level(f) == level) && forall f <- figures :: level <= Level(f)
  }

  /**
    With no pin and nothing stale, the gauge is the lowest level over every figure of every
    plan, and unknown exactly when there is no figure at all.
  */
  lemma GaugeIsTheLowest(reports: seq<Report>)
    requires Fresh(reports)
    ensures var level := GaugeLevel(StatusOf(Some(GlanceView(reports, false)), ""));
            if AllFigures(reports) == [] then level == GAUGE_UNKNOWN else LowestLevel(level, AllFigures(reports))
  {
    TightestIsLargest(reports);
    if AllFigures(reports) != [] {
      var best := Tightest(reports).value;
      assert Level(best.pct) == GaugeLevel(best);
      forall f | f in AllFigures(reports)
        ensures Level(best.pct) <= Level(f)
      {
        LevelFalls(f, best.pct);
      }
    }
  }

  /** A plan's own gauge, were it the only one. */
  function PlanLevel(r: Report): int { GaugeLevel(StatusOf(Some(GlanceView([r], false)), "")) }

  lemma PlanLevelIsItsLargest(r: Report)
    requires forall w <- r.windows :: !w.stale
    ensures HasReading(r) ==> PlanLevel(r) == Level(ReportStatus(r).pct)
    ensures !HasReading(r) ==> PlanLevel(r) == GAUGE_UNKNOWN
  {
    assert [r][..0] == [];
    assert Tightest([r]) == if HasReading(r) then Some(ReportStatus(r).(known := true)) else None;
    ReportIsLargest(r);
  }

  /** Plan by plan: the answer is some plan's own level and no plan with a reading is lower. */
  lemma GaugeIsTheTightestPlan(reports: seq<Report>)
    requires Fresh(reports) && exists r <- reports :: HasReading(r)
    ensures var level := GaugeLevel(StatusOf(Some(GlanceView(reports, false)), ""));
            (exists r <- reports :: HasReading(r) && PlanLevel(r) == level)
            && forall r <- reports :: HasReading(r) ==> level <= PlanLevel(r)
  {
    TightestAmongPlans(reports);
    TightestIsLargest(reports);
    forall r | r in reports && HasReading(r)
      ensures Level(Tightest(reports).value.pct) <= PlanLevel(r)
    {
      PlanLevelIsItsLargest(r);
      LevelFalls(ReportStatus(r).pct, Tightest(reports).value.pct);
    }
    var r :| r in reports && HasReading(r) && ReportStatus(r).pct == Tightest(reports).value.pct;
    PlanLevelIsItsLargest(r);
  }

  lemma {:induction false} TightestAmongPlans(reports: seq<Report>)
    ensures Tightest(reports).Some? <==> exists r <- reports :: HasReading(r)
    ensures Tightest(reports).Some? ==>
              (exists r <- reports :: HasReading(r) && Tightest(reports).value == ReportStatus(r).(known := true))
              && forall r <- reports :: HasReading(r) ==> ReportStatus(r).pct <= Tightest(reports).value.pct
  {
    if reports != [] {
      var front := reports[..|reports| - 1];
      TightestAmongPlans(front);
      assert forall q <- front :: q in reports;
      assert reports[|reports| - 1] in reports;
      assert forall q <- reports :: q in front || q == reports[|reports| - 1];
    }
  }

  /**
    A pin wins whenever its provider has a reading, however tight the others are, and otherwise
    changes nothing.
  */
  lemma PinOverrides(reports: seq<Report>, ring: string)
    ensures var st := StatusOf(Some(GlanceView(reports, false)), ring);
            if ring != "" && exists r <- reports :: r.provider == ring && HasReading(r)
            then exists r <- reports :: r.provider == ring && HasReading(r) && st == ReportStatus(r).(known := true)
            else st == StatusOf(Some(GlanceView(reports, false)), "")
  {
    PinnedAmong(reports, ring);
    TightestAmongPlans(reports);
  }

  lemma {:induction false} PinnedAmong(reports: seq<Report>, ring: string)
    ensures Pinned(reports, ring).Some? <==> ring != "" && exists r <- reports :: r.provider == ring && HasReading(r)
    ensures Pinned(reports, ring).Some? ==>
              exists r <- reports :: r.provider == ring && HasReading(r) && Pinned(reports, ring).value == ReportStatus(r).(known := true)
  {
    if reports != [] && ring != "" {
      var front := reports[..|reports| - 1];
      PinnedAmong(front, ring);
      assert forall q <- front :: q in reports;
      assert reports[|reports| - 1] in reports;
      assert forall q <- reports :: q in front || q == reports[|reports| - 1];
    }
  }

  /** The first of the tightest plans. */
  predicate TightestAt(reports: seq<Report>, i: nat) {
    i < |reports| && HasReading(reports[i])
    && (forall j | 0 <= j < |reports| && HasReading(reports[j]) :: ReportStatus(reports[j]).pct <= ReportStatus(reports[i]).pct)
    && forall j | 0 <= j < i && HasReading(reports[j]) :: ReportStatus(reports[j]).pct < ReportStatus(reports[i]).pct
  }

  lemma {:induction false} TightestIsFirst(reports: seq<Report>)
    ensures Tightest(reports).Some? ==>
              exists i: nat :: TightestAt(reports, i) && Tightest(reports).value == ReportStatus(reports[i]).(known := true)
  {
    hide ReportStatus, HasReading;
    if reports != [] {
      var front, r := reports[..|reports| - 1], reports[|reports| - 1];
      TightestIsFirst(front);
      TightestAmongPlans(front);
      if HasReading(r) && (Tightest(front).None? || ReportStatus(r).pct > Tightest(front).value.pct) {
        LastIsTightest(reports);
      } else if Tightest(front).Some? {
        var i: nat :| TightestAt(front, i) && Tightest(front).value == ReportStatus(front[i]).(known := true);
        FirstStaysTightest(reports, i);
      }
    }
  }

  lemma LastIsTightest(reports: seq<Report>)
    requires reports != [] && HasReading(reports[|reports| - 1])
    requires forall r <- reports[..|reports| - 1] :: HasReading(r) ==> ReportStatus(r).pct < ReportStatus(reports[|reports| - 1]).pct
    ensures TightestAt(reports, |reports| - 1)
  {
    hide ReportStatus, HasReading;
    var front := reports[..|reports| - 1];
    assert forall j | 0 <= j < |front| :: reports[j] == front[j] && front[j] in front;
  }

  lemma FirstStaysTightest(reports: seq<Report>, i: nat)
    requires reports != [] && TightestAt(reports[..|reports| - 1], i)
    requires var r := reports[|reports| - 1]; HasReading(r) ==> ReportStatus(r).pct <= ReportStatus(reports[i]).pct
    ensures TightestAt(reports, i)
  {
    hide ReportStatus, HasReading;
    var front := reports[..|reports| - 1];
    assert forall j | 0 <= j < |front| :: reports[j] == front[j];
  }

  lemma FirstTightestIsUnique(reports: seq<Report>, i: nat, j: nat)
    requires TightestAt(reports, i) && TightestAt(reports, j)
    ensures i == j
  {
    hide ReportStatus, HasReading;
  }

  /** A plan's figure is stale exactly when the last window holding it is. */
  lemma StaleByItsLastWindow(r: Report)
    requires HasReading(r)
    ensures ReportStatus(r).stale <==> LastAt(r.windows, ReportStatus(r).pct, true)
  {
    hide Busiest, Figures;
    ReportIsLargest(r);
  }

  /** Measured by a window whose reading is stale. */
  predicate StaleMeasure(r: Report) { LastAt(r.windows, ReportStatus(r).pct, true) }

  /**
    Unpinned, the gauge is unknown exactly when no plan has a reading, or when the first of the
    tightest plans is measured by a stale window; every other plan may be as stale as it likes.
  */
  lemma UnknownExactly(reports: seq<Report>)
    ensures GaugeLevel(StatusOf(Some(GlanceView(reports, false)), "")) == GAUGE_UNKNOWN
            <==> (forall r <- reports :: !HasReading(r)) || exists i: nat :: TightestAt(reports, i) && StaleMeasure(reports[i])
  {
    hide ReportStatus, HasReading, Tightest, LastAt, Level;
    var st := StatusOf(Some(GlanceView(reports, false)), "");
    TightestAmongPlans(reports);
    TightestIsFirst(reports);
    EmptyAndFullAreExact(st.pct);
    if Tightest(reports).Some? {
      var i: nat :| TightestAt(reports, i) && Tightest(reports).value == ReportStatus(reports[i]).(known := true);
      assert st.stale <==> StaleMeasure(reports[i]) by {
        StaleByItsLastWindow(reports[i]);
      }
      forall j: nat | TightestAt(reports, j)
        ensures j == i
      {
        FirstTightestIsUnique(reports, i, j);
      }
    }
  }

  /** What the icon is titled: a dash when there is no answer to read, the app's name when no plan has a reading, else a plan. */
  lemma TitleExactly(g: Option<GlanceView>, ring: string)
    ensures var title := StatusOf(g, ring).title;
            (title == Dash <==> g.None? || g.value.failed)
            && (title == AppName <==> g.Some? && !g.value.failed && forall r <- g.value.reports :: !HasReading(r))
            && (title.Plan? <==> g.Some? && !g.value.failed && exists r <- g.value.reports :: HasReading(r))
  {
    if g.Some? && !g.value.failed {
      var reports := g.value.reports;
      TightestAmongPlans(reports);
      PinnedAmong(reports, ring);
      forall r | r in reports && HasReading(r)
        ensures ReportStatus(r).title.Plan?
      {
        ReportIsLargest(r);
      }
    }
  }

  /** Of several readings of the pinned provider the last one is shown. */
  lemma PinnedIsLast(reports: seq<Report>, ring: string, i: nat)
    requires ring != "" && i < |reports| && reports[i].provider == ring && HasReading(reports[i])
    requires forall j | i < j < |reports| :: !(reports[j].provider == ring && HasReading(reports[j]))
    ensures StatusOf(Some(GlanceView(reports, false)), ring) == ReportStatus(reports[i]).(known := true)
  {
    PinnedAt(reports, ring, i);
    TightestAmongPlans(reports);
    assert reports[i] in reports;
  }

  lemma {:induction false} PinnedAt(reports: seq<Report>, ring: string, i: nat)
    requires ring != "" && i < |reports| && reports[i].provider == ring && HasReading(reports[i])
    requires forall j | i < j < |reports| :: !(reports[j].provider == ring && HasReading(reports[j]))
    ensures Pinned(reports, ring) == Some(ReportStatus(reports[i]).(known := true))
  {
    hide HasReading, ReportStatus;
    if i < |reports| - 1 {
      var front := reports[..|reports| - 1];
      assert forall j | 0 <= j < |front| :: front[j] == reports[j];
      PinnedAt(front, ring, i);
    }
  }
}
