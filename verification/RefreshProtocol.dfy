/**
  Overlapping refreshes: every goroutine that reads, asks or follows up is a thread, the
  critical sections of `Refresh` are its steps, and any interleaving is a run.
*/
module RefreshProtocol {
  import opened Basics
  import opened Refresh

  datatype Phase = Waiting | InFlight(since: Time) | Over

  /** Who is reading: a tick or command, the refresh that asked, or its three follow-ups. */
  datatype Kind = Plain | Asked(requested: bool) | Follower(i: nat, ended: bool)

  datatype Thread = Thread(kind: Kind, phase: Phase)

  const LAST := 2

  /** What a thread goes on to after a read completes. */
  function AfterRead(th: Thread): Thread {
    match th.kind
    case Plain => Thread(Plain, Over)
    case Asked(requested) => if requested then Thread(Follower(0, false), Waiting) else Thread(th.kind, Over)
    case Follower(i, ended) => if i < LAST then Thread(Follower(i + 1, false), Waiting) else Thread(th.kind, Over)
  }

  /** The last follow-up ends the refresh before it reads. */
  predicate CanEnd(th: Thread) { th == Thread(Follower(LAST, false), Waiting) }

  predicate CanStart(th: Thread) { th.phase.Waiting? && !CanEnd(th) }

  /** An accepted refresh whose final follow-up has not ended it yet. */
  predicate Outstanding(th: Thread) {
    match th.kind
    case Plain => false
    case Asked(requested) => requested
    case Follower(_, ended) => !ended
  }

  datatype Action =
    | Spawn                                  // a tick, a command or a failed ask
    | Accept(note: string, requested: bool)  // the daemon answered a refresh
    | Start(t: nat)
    | Finish(t: nat, v: View)
    | End(t: nat)
    | SetNote(text: string, warn: bool, until: Time)
    | SetRing(provider: string)

  /**
    `completed`, `shown` and `fed` record what each completed read returned, showed and
    gave the alerter; `opener` is the thread whose read broke the last idleness, while it is out.
  */
  datatype System = System(
    bar: Bar,
    threads: map<nat, Thread>,
    opener: Option<nat>,
    next: nat,
    clock: Time,
    completed: seq<View>,
    shown: seq<View>,
    fed: seq<string>)

  const INITIAL := System(IDLE_BAR, map[], None, 0, 1, [], [], [])

  predicate Enabled(s: System, a: Action) {
    match a
    case Spawn => true
    case Accept(_, _) => true
    case Start(t) => t in s.threads && CanStart(s.threads[t])
    case Finish(t, v) => t in s.threads && s.threads[t].phase.InFlight? && Reading(v)
    case End(t) => t in s.threads && CanEnd(s.threads[t])
    case SetNote(_, _, _) => true
    case SetRing(_) => true
  }

  /** The threads with a read in flight. */
  function Flying(threads: map<nat, Thread>): set<nat> {
    set t | t in threads && threads[t].phase.InFlight?
  }

  /** One step, at the current clock. */
  function Do(s: System, a: Action): System
    requires Enabled(s, a)
  {
    var now := s.clock;
    var s' := s.(clock := now + 1);
    match a
    case Spawn => s'.(threads := s.threads[s.next := Thread(Plain, Waiting)], next := s.next + 1)
    case Accept(note, requested) =>
      s'.(bar := Accepted(s.bar, note, requested, now),
          threads := s.threads[s.next := Thread(Asked(requested), Waiting)], next := s.next + 1)
    case Start(t) =>
      s'.(opener := if Flying(s.threads) == {} then Some(t) else s.opener,
          bar := Started(s.bar, now).0, threads := s.threads[t := s.threads[t].(phase := InFlight(now))])
    case Finish(t, v) =>
      var (bar, view, observed) := Finished(s.bar, v, now);
      s'.(opener := if s.opener == Some(t) then None else s.opener,
          bar := bar, threads := s.threads[t := AfterRead(s.threads[t])],
          completed := s.completed + [v], shown := s.shown + [view],
          fed := if observed.Some? then s.fed + [observed.value] else s.fed)
    case End(t) =>
      s'.(bar := Ended(s.bar, now), threads := s.threads[t := Thread(Follower(LAST, true), Waiting)])
    case SetNote(text, warn, until) => s'.(bar := s.bar.(note := text, noteWarn := warn, noteUntil := until))
    case SetRing(provider) => s'.(bar := s.bar.(ring := provider))
  }

  predicate AllEnabled(s: System, actions: seq<Action>)
    decreases actions
  {
    actions == [] || (Enabled(s, actions[0]) && AllEnabled(Do(s, actions[0]), actions[1..]))
  }

  function Run(s: System, actions: seq<Action>): System
    requires AllEnabled(s, actions)
    decreases actions
  {
    if actions == [] then s else Run(Do(s, actions[0]), actions[1..])
  }

  // ----- what the history says ---------------------------------------------

  /** The last error-free reading of a history. */
  function LastGood(views: seq<View>): Option<View> {
    if views == [] then None
    else if Good(views[|views| - 1]) then Some(views[|views| - 1])
    else LastGood(views[..|views| - 1])
  }

  function GoodGlances(views: seq<View>): seq<string> {
    if views == [] then []
    else
      var v := views[|views| - 1];
      GoodGlances(views[..|views| - 1]) + (if Good(v) && v.glance.Some? then [v.glance.value] else [])
  }

  /** What the panel must show once the last of `views` has completed. */
  predicate ShowsRightly(shown: View, views: seq<View>)
    requires views != []
  {
    var v := views[|views| - 1];
    if v.err.None? then shown.glance == v.glance && shown.error.None? && shown.updated == v.updated
    else
      shown.error.Some? && shown.error.value.cause == v.err.value && (shown.waiting <==> v.err.value == Slow)
      && var kept := LastGood(views[..|views| - 1]);
         if kept.Some? && v.err.value != NoDaemon then
           shown.glance == kept.value.glance && shown.updated == kept.value.updated
           && shown.error.value.shown == kept.value.updated
         else shown.glance.None? && shown.error.value.shown == 0
  }

  // ----- the invariant -----------------------------------------------------

  ghost predicate CountInv(s: System) {
    && s.bar.inFlight == |Flying(s.threads)|
    && s.clock > 0
    && (forall t | t in s.threads :: t < s.next)
    && (forall t | t in s.threads && s.threads[t].phase.InFlight? :: 0 < s.bar.loadingSince <= s.threads[t].phase.since)
    && (forall t | t in s.threads && s.threads[t].phase.InFlight? :: s.threads[t].phase.since < s.clock)
    && (forall t | t in s.threads && s.threads[t].phase.InFlight? ::
          s.threads[t].phase.since == s.bar.loadingSince <==> s.opener == Some(t))
    && (s.opener.Some? ==> s.opener.value in Flying(s.threads))
  }

  ghost predicate FlagInv(s: System) {
    s.bar.refreshing ==> exists t :: t in s.threads && Outstanding(s.threads[t])
  }

  ghost predicate HistoryInv(s: System) {
    && (forall i | 0 <= i < |s.completed| :: Reading(s.completed[i]))
    && s.bar.last.err.None? && s.bar.last.error.None?
    && (var kept := LastGood(s.completed);
        if kept.Some? then s.bar.last.glance == kept.value.glance && s.bar.last.updated == kept.value.updated != 0 && kept.value.glance.Some?
        else s.bar.last.glance.None?)
    && s.fed == GoodGlances(s.completed)
    && |s.shown| == |s.completed|
    && forall i | 0 <= i < |s.shown| :: ShowsRightly(s.shown[i], s.completed[..i + 1])
  }

  ghost predicate Inv(s: System) { CountInv(s) && FlagInv(s) && HistoryInv(s) }

  lemma FlyingAfter(threads: map<nat, Thread>, t: nat, th: Thread)
    ensures var was := t in threads && threads[t].phase.InFlight?;
            |Flying(threads[t := th])| == |Flying(threads)| - (if was then 1 else 0) + (if th.phase.InFlight? then 1 else 0)
  {
    var others := Flying(threads) - {t};
    assert Flying(threads) == if t in threads && threads[t].phase.InFlight? then others + {t} else others;
    assert Flying(threads[t := th]) == if th.phase.InFlight? then others + {t} else others;
  }

  lemma OtherFlies(threads: map<nat, Thread>, t: nat)
    requires t in threads && threads[t].phase.InFlight?
    ensures |Flying(threads)| > 1 <==> exists o :: o != t && o in threads && threads[o].phase.InFlight?
  {
    var others := Flying(threads) - {t};
    assert Flying(threads) == others + {t};
    if |Flying(threads)| > 1 {
      var o :| o in others;
    }
    if o :| o != t && o in threads && threads[o].phase.InFlight? {
      assert o in others;
    }
  }

  lemma StartCounts(s: System, t: nat)
    requires CountInv(s) && Enabled(s, Start(t))
    ensures CountInv(Do(s, Start(t)))
  {
    FlyingAfter(s.threads, t, s.threads[t].(phase := InFlight(s.clock)));
    if s.bar.inFlight == 0 {
      assert Flying(s.threads) == {};
      assert forall o | o in s.threads && s.threads[o].phase.InFlight? :: o in Flying(s.threads);
    } else {
      var o :| o in Flying(s.threads);
      assert o in s.threads && s.threads[o].phase.InFlight?;
    }
  }

  lemma FinishCounts(s: System, t: nat, v: View)
    requires CountInv(s) && Enabled(s, Finish(t, v))
    ensures CountInv(Do(s, Finish(t, v)))
  {
    hide Settled, Noted, Reading;
    FlyingAfter(s.threads, t, AfterRead(s.threads[t]));
  }

  lemma CountKept(s: System, a: Action)
    requires CountInv(s) && Enabled(s, a)
    ensures CountInv(Do(s, a))
  {
    match a {
      case Spawn => FlyingAfter(s.threads, s.next, Thread(Plain, Waiting));
      case Accept(_, requested) => FlyingAfter(s.threads, s.next, Thread(Asked(requested), Waiting));
      case Start(t) => StartCounts(s, t);
      case Finish(t, v) => FinishCounts(s, t, v);
      case End(t) => FlyingAfter(s.threads, t, Thread(Follower(LAST, true), Waiting));
      case SetNote(_, _, _) =>
      case SetRing(_) =>
    }
  }

  lemma FlagKept(s: System, a: Action)
    requires CountInv(s) && FlagInv(s) && Enabled(s, a)
    ensures FlagInv(Do(s, a))
  {
    var s' := Do(s, a);
    if s'.bar.refreshing {
      if a.Accept? {
        assert s'.threads[s.next] == Thread(Asked(a.requested), Waiting);
      } else {
        assert s.bar.refreshing;
        var t :| t in s.threads && Outstanding(s.threads[t]);
        assert t in s'.threads && Outstanding(s'.threads[t]);
      }
    }
  }

  /** A completing read shows what it should after the reads before it. */
  lemma NewViewIsRight(s: System, t: nat, v: View)
    requires CountInv(s) && HistoryInv(s) && Enabled(s, Finish(t, v))
    ensures ShowsRightly(Finished(s.bar, v, s.clock).1, s.completed + [v])
  {
    assert (s.completed + [v])[..|s.completed|] == s.completed;
  }

  /** The kept reading and the alerter's feed after a completing read. */
  lemma FinishKeepsLast(s: System, t: nat, v: View)
    requires CountInv(s) && HistoryInv(s) && Enabled(s, Finish(t, v))
    ensures var s' := Do(s, Finish(t, v));
            s'.bar.last.err.None? && s'.bar.last.error.None? && s'.fed == GoodGlances(s'.completed)
            && var kept := LastGood(s'.completed);
               if kept.Some? then
                 s'.bar.last.glance == kept.value.glance && s'.bar.last.updated == kept.value.updated != 0 && kept.value.glance.Some?
               else s'.bar.last.glance.None?
  {
    hide CountInv, ShowsRightly, Flying, Noted;
    assert (s.completed + [v])[..|s.completed|] == s.completed;
  }

  lemma FinishKeepsHistory(s: System, t: nat, v: View)
    requires CountInv(s) && HistoryInv(s) && Enabled(s, Finish(t, v))
    ensures HistoryInv(Do(s, Finish(t, v)))
  {
    var s' := Do(s, Finish(t, v));
    var n := |s.completed|;
    assert s'.completed[..n] == s.completed && s'.completed[n] == v;
    FinishKeepsLast(s, t, v);
    NewViewIsRight(s, t, v);
    hide ShowsRightly, Finished, LastGood, GoodGlances, CountInv, Reading;
    forall i | 0 <= i < |s'.shown|
      ensures ShowsRightly(s'.shown[i], s'.completed[..i + 1])
    {
      if i < n {
        assert s'.completed[..i + 1] == s.completed[..i + 1] && s'.shown[i] == s.shown[i];
      } else {
        assert s'.completed[..i + 1] == s'.completed;
      }
    }
  }

  lemma HistoryKept(s: System, a: Action)
    requires CountInv(s) && HistoryInv(s) && Enabled(s, a)
    ensures HistoryInv(Do(s, a))
  {
    if a.Finish? {
      FinishKeepsHistory(s, a.t, a.v);
    } else {
      hide ShowsRightly, Finished, LastGood, GoodGlances, CountInv, Reading;
    }
  }

  lemma {:induction false} RunKeepsInv(s: System, actions: seq<Action>)
    requires Inv(s) && AllEnabled(s, actions)
    ensures Inv(Run(s, actions))
    decreases actions
  {
    if actions != [] {
      CountKept(s, actions[0]);
      FlagKept(s, actions[0]);
      HistoryKept(s, actions[0]);
      RunKeepsInv(Do(s, actions[0]), actions[1..]);
    }
  }

  // ----- the protocol's promises -------------------------------------------

  /** At any point of any interleaving the counter is the number of reads in flight. */
  lemma ReadsAreCounted(actions: seq<Action>)
    requires AllEnabled(INITIAL, actions)
    ensures var s := Run(INITIAL, actions); s.bar.inFlight == |Flying(s.threads)| && s.bar.inFlight >= 0
  {
    InitialHolds();
    RunKeepsInv(INITIAL, actions);
  }

  lemma InitialHolds()
    ensures Inv(INITIAL)
  {
    assert Flying(INITIAL.threads) == {};
  }

  /**
    A starting read announces itself exactly when no other is in flight, over the reading last
    kept and marked with its own start.
  */
  lemma OnlyTheFirstReadAnnounces(actions: seq<Action>)
    requires AllEnabled(INITIAL, actions)
    ensures var s := Run(INITIAL, actions);
            var emitted := Started(s.bar, s.clock).1;
            (emitted.Some? <==> Flying(s.threads) == {})
            && (emitted.Some? ==> emitted.value.loadingSince == s.clock && emitted.value.error.None?
                                  && emitted.value.glance == s.bar.last.glance && emitted.value.refreshing == s.bar.refreshing)
  {
    InitialHolds();
    RunKeepsInv(INITIAL, actions);
  }

  /** A completing read is shown as loading exactly when another one is still in flight. */
  lemma LoadingMarksOverlap(actions: seq<Action>, t: nat, v: View)
    requires AllEnabled(INITIAL, actions) && Enabled(Run(INITIAL, actions), Finish(t, v))
    ensures var s := Run(INITIAL, actions);
            var view := Finished(s.bar, v, s.clock).1;
            view.loadingSince != 0 <==> exists o :: o != t && o in s.threads && s.threads[o].phase.InFlight?
  {
    InitialHolds();
    RunKeepsInv(INITIAL, actions);
    OtherFlies(Run(INITIAL, actions).threads, t);
  }

  /**
    Over any run: the kept reading is the last one that succeeded, every successful
    reading reaches the alerter once and in order and no failed one does, and each completed
    read shows what it should.
  */
  lemma OnlyGoodReadingsAreKept(actions: seq<Action>)
    requires AllEnabled(INITIAL, actions)
    ensures var s := Run(INITIAL, actions);
            s.bar.last.err.None? && s.bar.last.error.None?
            && (LastGood(s.completed).Some? ==> s.bar.last.glance == LastGood(s.completed).value.glance)
            && (LastGood(s.completed).None? ==> s.bar.last.glance.None?)
            && s.fed == GoodGlances(s.completed)
            && |s.shown| == |s.completed|
            && forall i | 0 <= i < |s.shown| :: ShowsRightly(s.shown[i], s.completed[..i + 1])
  {
    InitialHolds();
    RunKeepsInv(INITIAL, actions);
  }

  /** Once no accepted refresh has its last follow-up to come, nothing is shown as refreshing. */
  lemma RefreshingEnds(actions: seq<Action>)
    requires AllEnabled(INITIAL, actions)
    ensures var s := Run(INITIAL, actions);
            (forall t | t in s.threads :: !Outstanding(s.threads[t])) ==> !s.bar.refreshing
  {
    InitialHolds();
    RunKeepsInv(INITIAL, actions);
  }

  /** The mark is up exactly while some accepted refresh has its last follow-up to come. */
  ghost predicate Agrees(s: System) {
    s.bar.refreshing <==> exists t :: t in s.threads && Outstanding(s.threads[t])
  }

  /** The step takes the mark down, or leaves it down, while another thread's refresh is still coming in. */
  ghost predicate Hides(s: System, a: Action) {
    match a
    case Accept(_, requested) => !requested && exists t :: t in s.threads && Outstanding(s.threads[t])
    case End(t) => exists o :: o != t && o in s.threads && Outstanding(s.threads[o])
    case _ => false
  }

  ghost predicate AgreesThroughout(s: System, actions: seq<Action>)
    requires AllEnabled(s, actions)
    decreases actions
  {
    Agrees(s) && (actions != [] ==> AgreesThroughout(Do(s, actions[0]), actions[1..]))
  }

  ghost predicate NothingHidden(s: System, actions: seq<Action>)
    requires AllEnabled(s, actions)
    decreases actions
  {
    actions == [] || (!Hides(s, actions[0]) && NothingHidden(Do(s, actions[0]), actions[1..]))
  }

  /** Only the last follow-up ends a refresh, so no ended thread has follow-ups to come. */
  ghost predicate EndedIsLast(s: System) {
    && (forall t | t in s.threads && s.threads[t].kind.Follower? && s.threads[t].kind.ended :: s.threads[t].kind.i == LAST)
    && (forall t | t in s.threads :: t < s.next)
  }

  lemma EndedStaysLast(s: System, a: Action)
    requires EndedIsLast(s) && Enabled(s, a)
    ensures EndedIsLast(Do(s, a))
  {
    hide Finished, Started;
  }

  /** What one step does to the refreshes still coming in. */
  lemma OutstandingAfter(s: System, a: Action, t: nat)
    requires EndedIsLast(s) && Enabled(s, a)
    ensures var s' := Do(s, a);
            t in s'.threads && Outstanding(s'.threads[t])
            <==> if a.Accept? && t == s.next then a.requested
                 else !(a.End? && a.t == t) && t in s.threads && Outstanding(s.threads[t])
  {
    hide Finished, Started;
  }

  lemma StepAgrees(s: System, a: Action)
    requires EndedIsLast(s) && Enabled(s, a) && Agrees(s)
    ensures Agrees(Do(s, a)) <==> !Hides(s, a)
  {
    var s' := Do(s, a);
    forall t
      ensures t in s'.threads && Outstanding(s'.threads[t])
              <==> if a.Accept? && t == s.next then a.requested
                   else !(a.End? && a.t == t) && t in s.threads && Outstanding(s.threads[t])
    {
      OutstandingAfter(s, a, t);
    }
    hide Outstanding;
    FlagAfter(s, a);
    if a.Accept? {
      assert s.next !in s.threads;
      OutstandingAfter(s, a, s.next);
      if a.requested {
        assert s.next in s'.threads && Outstanding(s'.threads[s.next]);
      }
    }
  }

  /** Answers and endings write the flag, and nothing else does. */
  lemma FlagAfter(s: System, a: Action)
    requires Enabled(s, a)
    ensures Do(s, a).bar.refreshing == match a { case Accept(_, requested) => requested case End(_) => false case _ => s.bar.refreshing }
  {
  }

  lemma {:induction false} AgreesUnlessHidden(s: System, actions: seq<Action>)
    requires AllEnabled(s, actions) && EndedIsLast(s) && Agrees(s)
    ensures AgreesThroughout(s, actions) <==> NothingHidden(s, actions)
    decreases actions
  {
    hide Agrees, Hides, EndedIsLast, Do;
    if actions != [] {
      var next := Do(s, actions[0]);
      EndedStaysLast(s, actions[0]);
      StepAgrees(s, actions[0]);
      if Agrees(next) {
        AgreesUnlessHidden(next, actions[1..]);
      }
    }
  }

  /**
    The mark shows what it is for at every point of a run if and only if no refresh ends,
    and no answer declines to poll, while another refresh is still coming in.
  */
  lemma RefreshingExactly(actions: seq<Action>)
    requires AllEnabled(INITIAL, actions)
    ensures AgreesThroughout(INITIAL, actions) <==> NothingHidden(INITIAL, actions)
  {
    AgreesUnlessHidden(INITIAL, actions);
  }

  /** Every step that writes the flag, and what it writes. */
  function FlagWrites(actions: seq<Action>): seq<bool> {
    if actions == [] then []
    else (match actions[0]
          case Accept(_, requested) => [requested]
          case End(_) => [false]
          case _ => []) + FlagWrites(actions[1..])
  }

  lemma {:induction false} FlagIsItsLastWrite(s: System, actions: seq<Action>)
    requires AllEnabled(s, actions)
    ensures var writes := FlagWrites(actions);
            Run(s, actions).bar.refreshing == if writes == [] then s.bar.refreshing else writes[|writes| - 1]
    decreases actions
  {
    if actions != [] {
      FlagIsItsLastWrite(Do(s, actions[0]), actions[1..]);
    }
  }

  /**
    At any one point the mark is right exactly when the latest answer or ending was an
    answer that asked for a poll, or when nothing is coming in any more: a mark once hidden
    stays wrong until either happens.
  */
  lemma MarkIsRightWhen(actions: seq<Action>)
    requires AllEnabled(INITIAL, actions)
    ensures var s, writes := Run(INITIAL, actions), FlagWrites(actions);
            Agrees(s) <==> (writes != [] && writes[|writes| - 1]) || forall t | t in s.threads :: !Outstanding(s.threads[t])
  {
    InitialHolds();
    RunKeepsInv(INITIAL, actions);
    FlagIsItsLastWrite(INITIAL, actions);
  }

  const FAILED := View(None, Some(Failed), None, false, None, false, 0, false, "", 1)

  /** A read by one thread, nothing else in between. */
  function Turn(t: nat): seq<Action> { [Start(t), Finish(t, FAILED)] }

  lemma TurnsAThread(s: System, t: nat)
    requires t in s.threads && CanStart(s.threads[t])
    ensures AllEnabled(s, Turn(t))
    ensures var s' := Run(s, Turn(t));
            s'.bar.refreshing == s.bar.refreshing && s'.threads == s.threads[t := AfterRead(s.threads[t].(phase := InFlight(s.clock)))]
  {
    var actions := Turn(t);
    assert actions[1..] == [Finish(t, FAILED)] && actions[1..][1..] == [];
    assert Reading(FAILED);
    var started := Do(s, Start(t));
    assert Enabled(started, Finish(t, FAILED));
    var done := Do(started, Finish(t, FAILED));
    assert done.threads == s.threads[t := AfterRead(s.threads[t].(phase := InFlight(s.clock)))];
    assert done.bar.refreshing == s.bar.refreshing;
    RunOne(started, Finish(t, FAILED));
  }

  lemma {:induction false} RunAppend(s: System, x: seq<Action>, y: seq<Action>)
    requires AllEnabled(s, x) && AllEnabled(Run(s, x), y)
    ensures AllEnabled(s, x + y) && Run(s, x + y) == Run(Run(s, x), y)
    decreases x
  {
    if x == [] {
      assert x + y == y;
    } else {
      assert (x + y)[0] == x[0] && (x + y)[1..] == x[1..] + y;
      RunAppend(Do(s, x[0]), x[1..], y);
    }
  }

  lemma RunOne(s: System, a: Action)
    requires Enabled(s, a)
    ensures AllEnabled(s, [a]) && Run(s, [a]) == Do(s, a)
  {
    assert [a][1..] == [];
  }

  /**
    So the flag can be down with a refresh outstanding: two
    refreshes are accepted and the first runs to its end before the second has read once.
  */
  lemma AnEndingHidesALaterRefresh() returns (actions: seq<Action>)
    ensures AllEnabled(INITIAL, actions)
    ensures var s := Run(INITIAL, actions); !s.bar.refreshing && exists t :: t in s.threads && Outstanding(s.threads[t])
  {
    var s := INITIAL;
    actions := [];
    actions, s := ThenOne(actions, s, Accept("first", true));
    actions, s := ThenOne(actions, s, Accept("second", true));
    assert s.threads[0] == s.threads[1] == Thread(Asked(true), Waiting);
    actions, s := ThenTurn(actions, s, 0);
    assert s.threads[0] == Thread(Follower(0, false), Waiting);
    actions, s := ThenTurn(actions, s, 0);
    assert s.threads[0] == Thread(Follower(1, false), Waiting);
    actions, s := ThenTurn(actions, s, 0);
    assert s.threads[0] == Thread(Follower(2, false), Waiting);
    actions, s := ThenOne(actions, s, End(0));
    assert s.threads[1] == Thread(Asked(true), Waiting);
  }

  lemma ThenOne(actions: seq<Action>, s: System, a: Action) returns (more: seq<Action>, next: System)
    requires AllEnabled(INITIAL, actions) && Run(INITIAL, actions) == s && Enabled(s, a)
    ensures AllEnabled(INITIAL, more) && Run(INITIAL, more) == next && next == Do(s, a)
  {
    RunOne(s, a);
    RunAppend(INITIAL, actions, [a]);
    more, next := actions + [a], Do(s, a);
  }

  lemma ThenTurn(actions: seq<Action>, s: System, t: nat) returns (more: seq<Action>, next: System)
    requires AllEnabled(INITIAL, actions) && Run(INITIAL, actions) == s && t in s.threads && CanStart(s.threads[t])
    ensures AllEnabled(INITIAL, more) && Run(INITIAL, more) == next
    ensures next.bar.refreshing == s.bar.refreshing
    ensures next.threads == s.threads[t := AfterRead(s.threads[t].(phase := InFlight(s.clock)))]
  {
    TurnsAThread(s, t);
    RunAppend(INITIAL, actions, Turn(t));
    more, next := actions + Turn(t), Run(s, Turn(t));
  }

  /**
    The start shown beside "fetching" never postdates a read in flight, and is that
    read's own start exactly when it is the one that broke the idleness.
  */
  lemma LoadingSinceIsTheBusyStart(actions: seq<Action>, t: nat)
    requires AllEnabled(INITIAL, actions)
    requires t in Run(INITIAL, actions).threads && Run(INITIAL, actions).threads[t].phase.InFlight?
    ensures var s := Run(INITIAL, actions);
            0 < s.bar.loadingSince <= s.threads[t].phase.since
            && (s.bar.loadingSince == s.threads[t].phase.since <==> s.opener == Some(t))
  {
    InitialHolds();
    RunKeepsInv(INITIAL, actions);
  }

  /** After that read completes, the start shown is earlier than any read still in flight. */
  lemma LoadingSinceCanPredateEveryRead() returns (actions: seq<Action>)
    ensures AllEnabled(INITIAL, actions)
    ensures var s := Run(INITIAL, actions);
            Flying(s.threads) != {} && forall t | t in Flying(s.threads) :: s.bar.loadingSince < s.threads[t].phase.since
  {
    var s := INITIAL;
    actions := [];
    actions, s := ThenOne(actions, s, Spawn);
    actions, s := ThenOne(actions, s, Spawn);
    assert s.threads[0] == s.threads[1] == Thread(Plain, Waiting) && s.threads.Keys == {0, 1};
    actions, s := ThenOne(actions, s, Start(0));
    assert s.bar.inFlight == 1 && s.bar.loadingSince == 3;
    actions, s := ThenOne(actions, s, Start(1));
    assert s.bar.loadingSince == 3 && s.threads[1] == Thread(Plain, InFlight(4));
    actions, s := ThenOne(actions, s, Finish(0, FAILED));
    assert s.threads[0].phase.Over? && 1 in Flying(s.threads);
  }

  // ----- readings out of order ---------------------------------------------

  /**
    The computation the daemon answers with at each moment: never an older one than before.
    An answer without a computation time is dated when it was asked for, which is the identity.
  */
  type Daemon = Time -> Time

  ghost predicate Advances(computed: Daemon) {
    forall a: Time, b: Time :: 0 < a <= b ==> 0 < computed(a) <= computed(b)
  }

  /** A good reading is what the daemon answered at some moment while the read was out. */
  ghost predicate Answered(s: System, a: Action, computed: Daemon)
    requires Enabled(s, a)
  {
    a.Finish? && Good(a.v) ==> exists m: Time :: s.threads[a.t].phase.since <= m < s.clock && a.v.updated == computed(m)
  }

  ghost predicate AllAnswered(s: System, actions: seq<Action>, computed: Daemon)
    requires AllEnabled(s, actions)
    decreases actions
  {
    actions == [] || (Answered(s, actions[0], computed) && AllAnswered(Do(s, actions[0]), actions[1..], computed))
  }

  /** No read starts while another is in flight. */
  predicate OneAtATime(s: System, actions: seq<Action>)
    requires AllEnabled(s, actions)
    decreases actions
  {
    actions == [] || ((actions[0].Start? ==> Flying(s.threads) == {}) && OneAtATime(Do(s, actions[0]), actions[1..]))
  }

  predicate GoesBack(s: System, a: Action)
    requires Enabled(s, a)
  {
    Do(s, a).bar.last.updated < s.bar.last.updated
  }

  predicate NeverGoesBack(s: System, actions: seq<Action>)
    requires AllEnabled(s, actions)
    decreases actions
  {
    actions == [] || (!GoesBack(s, actions[0]) && NeverGoesBack(Do(s, actions[0]), actions[1..]))
  }

  /** What is kept was computed by now, and with a single read out, by the time that read began. */
  ghost predicate OrderInv(s: System, computed: Daemon) {
    && s.clock > 0 && s.bar.last.updated <= computed(s.clock)
    && (forall t, o | t in s.threads && o in s.threads && s.threads[t].phase.InFlight? && s.threads[o].phase.InFlight? :: t == o)
    && (forall t | t in s.threads && s.threads[t].phase.InFlight? ::
          0 < s.threads[t].phase.since < s.clock && s.bar.last.updated <= computed(s.threads[t].phase.since))
    && (forall t | t in s.threads :: t < s.next)
  }

  lemma OrderAfterStart(s: System, t: nat, computed: Daemon)
    requires Advances(computed) && OrderInv(s, computed) && Enabled(s, Start(t)) && Flying(s.threads) == {}
    ensures OrderInv(Do(s, Start(t)), computed) && !GoesBack(s, Start(t))
  {
    assert computed(s.clock) <= computed(s.clock + 1);
    assert forall o | o in s.threads && s.threads[o].phase.InFlight? :: o in Flying(s.threads);
  }

  lemma OrderAfterFinish(s: System, t: nat, v: View, computed: Daemon)
    requires Advances(computed) && OrderInv(s, computed) && Enabled(s, Finish(t, v)) && Answered(s, Finish(t, v), computed)
    ensures OrderInv(Do(s, Finish(t, v)), computed) && !GoesBack(s, Finish(t, v))
  {
    hide Settled, Noted, Reading, Flying;
    assert computed(s.clock) <= computed(s.clock + 1);
    if Good(v) {
      var m: Time :| s.threads[t].phase.since <= m < s.clock && v.updated == computed(m);
      assert computed(s.threads[t].phase.since) <= computed(m) <= computed(s.clock + 1);
    }
  }

  lemma OrderKept(s: System, a: Action, computed: Daemon)
    requires Advances(computed) && OrderInv(s, computed) && Enabled(s, a) && Answered(s, a, computed)
    requires a.Start? ==> Flying(s.threads) == {}
    ensures OrderInv(Do(s, a), computed) && !GoesBack(s, a)
  {
    if a.Start? {
      OrderAfterStart(s, a.t, computed);
    } else if a.Finish? {
      OrderAfterFinish(s, a.t, a.v, computed);
    } else {
      hide Started, Finished, Flying;
      assert computed(s.clock) <= computed(s.clock + 1);
    }
  }

  lemma {:induction false} OrderedRun(s: System, actions: seq<Action>, computed: Daemon)
    requires Advances(computed) && OrderInv(s, computed)
    requires AllEnabled(s, actions) && AllAnswered(s, actions, computed) && OneAtATime(s, actions)
    ensures NeverGoesBack(s, actions)
    decreases actions
  {
    if actions != [] {
      OrderKept(s, actions[0], computed);
      OrderedRun(Do(s, actions[0]), actions[1..], computed);
    }
  }

  /** Reads that take turns never replace the glance on screen with an older one. */
  lemma TurnsNeverGoBack(actions: seq<Action>, computed: Daemon)
    requires Advances(computed) && AllEnabled(INITIAL, actions)
    requires AllAnswered(INITIAL, actions, computed) && OneAtATime(INITIAL, actions)
    ensures NeverGoesBack(INITIAL, actions)
  {
    OrderedRun(INITIAL, actions, computed);
  }

  /**
    When reads overlap, one in flight can still replace the kept glance with an older one
    exactly when the kept one was computed after what the daemon had as that read began.
    Which glance stays is decided by who completes last, not by which is newer.
  */
  lemma GoesBackExactly(actions: seq<Action>, computed: Daemon, t: nat)
    requires Advances(computed) && AllEnabled(INITIAL, actions)
    requires t in Run(INITIAL, actions).threads && Run(INITIAL, actions).threads[t].phase.InFlight?
    ensures var s := Run(INITIAL, actions);
            (exists v :: Enabled(s, Finish(t, v)) && Answered(s, Finish(t, v), computed) && GoesBack(s, Finish(t, v)))
            <==> computed(s.threads[t].phase.since) < s.bar.last.updated
  {
    InitialHolds();
    RunKeepsInv(INITIAL, actions);
    SlowReadGoesBack(Run(INITIAL, actions), computed, t);
  }

  lemma SlowReadGoesBack(s: System, computed: Daemon, t: nat)
    requires Advances(computed) && t in s.threads && s.threads[t].phase.InFlight? && 0 < s.threads[t].phase.since < s.clock
    ensures (exists v :: Enabled(s, Finish(t, v)) && Answered(s, Finish(t, v), computed) && GoesBack(s, Finish(t, v)))
            <==> computed(s.threads[t].phase.since) < s.bar.last.updated
  {
    hide Noted;
    var since := s.threads[t].phase.since;
    if computed(since) < s.bar.last.updated {
      var v := GlanceOf("", computed(since));
      assert computed(since) > 0 by { assert since <= since; }
      assert Enabled(s, Finish(t, v)) && Answered(s, Finish(t, v), computed) && GoesBack(s, Finish(t, v));
    }
    if v :| Enabled(s, Finish(t, v)) && Answered(s, Finish(t, v), computed) && GoesBack(s, Finish(t, v)) {
      assert Good(v);
      var m: Time :| since <= m < s.clock && v.updated == computed(m);
      assert computed(since) <= computed(m);
    }
  }

  function GlanceOf(glance: string, updated: Time): View { View(Some(glance), None, None, false, None, false, 0,
      false, "", updated) }

  /** When the good readings of a history were computed. */
  function GoodTimes(views: seq<View>): seq<Time> {
    if views == [] then []
    else
      var v := views[|views| - 1];
      GoodTimes(views[..|views| - 1]) + (if Good(v) && v.glance.Some? then [v.updated] else [])
  }

  predicate Sorted(times: seq<Time>) { forall i, j | 0 <= i < j < |times| :: times[i] <= times[j] }

  /** The good readings so far are in order of time, and none is newer than the kept one. */
  predicate TimesInv(s: System) {
    var times := GoodTimes(s.completed);
    Sorted(times) && |times| == |GoodGlances(s.completed)| && forall i | 0 <= i < |times| :: times[i] <= s.bar.last.updated
  }

  lemma TimesKept(s: System, a: Action)
    requires TimesInv(s) && Enabled(s, a) && !GoesBack(s, a)
    ensures TimesInv(Do(s, a))
  {
    if a.Finish? {
      hide Settled, Noted;
      assert (s.completed + [a.v])[..|s.completed|] == s.completed;
    } else {
      hide Finished, GoodTimes, GoodGlances, Sorted;
    }
  }

  lemma {:induction false} TimesRun(s: System, actions: seq<Action>)
    requires TimesInv(s) && AllEnabled(s, actions) && NeverGoesBack(s, actions)
    ensures TimesInv(Run(s, actions))
    decreases actions
  {
    if actions != [] {
      TimesKept(s, actions[0]);
      TimesRun(Do(s, actions[0]), actions[1..]);
    }
  }

  /** Reads that take turns feed the alerter in the order the glances were computed. */
  lemma TurnsFeedInOrder(actions: seq<Action>, computed: Daemon)
    requires Advances(computed) && AllEnabled(INITIAL, actions)
    requires AllAnswered(INITIAL, actions, computed) && OneAtATime(INITIAL, actions)
    ensures var s := Run(INITIAL, actions);
            s.fed == GoodGlances(s.completed) && |GoodTimes(s.completed)| == |s.fed| && Sorted(GoodTimes(s.completed))
  {
    TurnsNeverGoBack(actions, computed);
    TimesRun(INITIAL, actions);
    InitialHolds();
    RunKeepsInv(INITIAL, actions);
  }

  /** Two reads overlap, and the one that began first completes last with the older glance. */
  lemma OverlapCanGoBack(older: string, newer: string) returns (actions: seq<Action>, last: Action)
    ensures AllEnabled(INITIAL, actions) && AllAnswered(INITIAL, actions, m => m)
    ensures var s := Run(INITIAL, actions);
            Enabled(s, last) && Answered(s, last, m => m) && GoesBack(s, last)
            && Do(s, last).fed == [newer, older] && GoodTimes(Do(s, last).completed) == [4, 3]
  {
    hide Finished, GoodTimes, Flying, Reading, Answered, AllAnswered, AllEnabled, Run;
    var s;
    actions, s := TwoInFlight();
    GlanceArrives(s, 1, newer, 4);
    var first := Finish(1, GlanceOf(newer, 4));
    actions, s := ThenAnswered(actions, s, first, m => m);
    assert s.threads[0] == Thread(Plain, InFlight(3));
    GlanceArrives(s, 0, older, 3);
    last := Finish(0, GlanceOf(older, 3));
    TimesOfTwo(first.v, last.v);
    assert Do(s, last).completed == [first.v, last.v];
  }

  /** A good reading answered while its read was out, dated within it. */
  lemma GlanceArrives(s: System, t: nat, glance: string, updated: Time)
    requires t in s.threads && s.threads[t].phase.InFlight? && s.threads[t].phase.since <= updated < s.clock && updated > 0
    ensures var a := Finish(t, GlanceOf(glance, updated));
            Enabled(s, a) && Answered(s, a, m => m)
            && Do(s, a).bar.last.updated == updated && Do(s, a).fed == s.fed + [glance] && Do(s, a).completed == s.completed + [a.v]
  {
    hide Noted;
    var a := Finish(t, GlanceOf(glance, updated));
    assert Enabled(s, a);
    assert ((m: Time) => m)(updated) == updated;
  }

  lemma TimesOfTwo(a: View, b: View)
    requires Good(a) && Good(b) && a.glance.Some? && b.glance.Some?
    ensures GoodTimes([a, b]) == [a.updated, b.updated]
  {
    assert [a, b][..1] == [a] && [a][..0] == [];
    assert GoodTimes([a]) == [a.updated];
  }

  lemma TwoInFlight() returns (actions: seq<Action>, s: System)
    ensures AllEnabled(INITIAL, actions) && AllAnswered(INITIAL, actions, m => m) && Run(INITIAL, actions) == s
    ensures s.threads == map[0 := Thread(Plain, InFlight(3)), 1 := Thread(Plain, InFlight(4))] && s.clock == 5
    ensures s.completed == [] && s.fed == [] && s.bar.last.updated == 0
  {
    hide Finished;
    s := INITIAL;
    actions := [];
    actions, s := ThenAnswered(actions, s, Spawn, m => m);
    actions, s := ThenAnswered(actions, s, Spawn, m => m);
    assert s.threads[0] == s.threads[1] == Thread(Plain, Waiting);
    actions, s := ThenAnswered(actions, s, Start(0), m => m);
    actions, s := ThenAnswered(actions, s, Start(1), m => m);
  }

  lemma {:induction false} AnsweredAppend(s: System, x: seq<Action>, a: Action, computed: Daemon)
    requires AllEnabled(s, x) && Enabled(Run(s, x), a)
    requires AllAnswered(s, x, computed) && Answered(Run(s, x), a, computed)
    ensures AllEnabled(s, x + [a]) && AllAnswered(s, x + [a], computed)
    decreases x
  {
    if x == [] {
      assert x + [a] == [a] && [a][1..] == [];
    } else {
      assert (x + [a])[0] == x[0] && (x + [a])[1..] == x[1..] + [a];
      AnsweredAppend(Do(s, x[0]), x[1..], a, computed);
    }
  }

  lemma ThenAnswered(actions: seq<Action>, s: System, a: Action, computed: Daemon) returns (more: seq<Action>, next: System)
    requires AllEnabled(INITIAL, actions) && AllAnswered(INITIAL, actions, computed)
    requires Run(INITIAL, actions) == s && Enabled(s, a) && Answered(s, a, computed)
    ensures AllEnabled(INITIAL, more) && AllAnswered(INITIAL, more, computed) && Run(INITIAL, more) == next && next == Do(s, a)
  {
    AnsweredAppend(INITIAL, actions, a, computed);
    more, next := ThenOne(actions, s, a);
    more := actions + [a];
    RunOne(s, a);
    RunAppend(INITIAL, actions, [a]);
  }
}
