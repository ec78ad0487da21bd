/**
  What the panel's views carry besides their glance, and how often an accepted refresh
  reads (apps/menubar/main.go), read off the history of steps alone.
*/
module RefreshMarks {
  import opened Basics
  import opened Refresh
  import opened RefreshProtocol

  lemma {:induction false} RunSnoc(s: System, actions: seq<Action>, a: Action)
    requires AllEnabled(s, actions + [a])
    ensures AllEnabled(s, actions) && Enabled(Run(s, actions), a) && Run(s, actions + [a]) == Do(Run(s, actions), a)
    decreases actions
  {
    hide Do, Enabled;
    var all := actions + [a];
    if actions == [] {
      assert all == [a] && [a][1..] == [];
    } else {
      assert all[0] == actions[0] && all[1..] == actions[1..] + [a];
      RunSnoc(Do(s, actions[0]), actions[1..], a);
    }
  }

  // ----- the note and the pin ----------------------------------------------

  datatype Marks = Marks(text: string, warn: bool, until: Time, ring: string)

  /**
    What the steps so far leave to be shown, the `i`th taking place at second `i`: an accepted refresh
    shows its note until a second after its last follow-up, thirty-six in all, or until it ends.
  */
  function MarksAfter(actions: seq<Action>): Marks {
    if actions == [] then Marks("", false, 0, "")
    else Marking(MarksAfter(actions[..|actions| - 1]), actions[|actions| - 1], |actions|)
  }

  function Marking(was: Marks, a: Action, now: Time): Marks {
    match a
    case Accept(note, _) => was.(text := note, warn := false, until := now + 36)
    case End(_) => was.(until := now)
    case SetNote(text, warn, until) => was.(text := text, warn := warn, until := until)
    case SetRing(provider) => was.(ring := provider)
    case _ => was
  }

  /** The state carries them, and the kept reading carries none of its own. */
  predicate Carries(s: System, m: Marks, now: Time) {
    s.bar.note == m.text && s.bar.noteWarn == m.warn && s.bar.noteUntil == m.until && s.bar.ring == m.ring && s.clock == now
    && s.bar.last.note.None? && !s.bar.last.noteWarn
  }

  lemma StepCarries(s: System, m: Marks, now: Time, a: Action)
    requires Carries(s, m, now) && Enabled(s, a)
    ensures Carries(Do(s, a), Marking(m, a, now), now + 1)
  {
    hide Settled, Noted, Flying;
  }

  lemma {:induction false} MarksAreCarried(actions: seq<Action>)
    requires AllEnabled(INITIAL, actions)
    ensures Carries(Run(INITIAL, actions), MarksAfter(actions), |actions| + 1)
    decreases actions
  {
    hide Do, Enabled, Carries, Marking;
    if actions == [] {
      InitialCarries();
    } else {
      var front, a := actions[..|actions| - 1], actions[|actions| - 1];
      assert actions == front + [a];
      RunSnoc(INITIAL, front, a);
      MarksAreCarried(front);
      StepCarries(Run(INITIAL, front), MarksAfter(front), |actions|, a);
    }
  }

  lemma InitialCarries()
    ensures Carries(INITIAL, Marks("", false, 0, ""), 1)
  {
  }

  /** A view shows the note it should: the latest, until its time is up. */
  predicate ShowsMarks(view: View, m: Marks, now: Time, refreshing: bool) {
    view.note == (if now < m.until then Some(m.text) else None) && view.noteWarn == (now < m.until && m.warn)
    && view.ring == m.ring && view.refreshing == refreshing
  }

  /**
    Every view, of a read that starts alone or of one that completes well or badly, shows the latest
    note while it lasts, the latest pin, and the refreshing mark as it stands.
  */
  lemma ViewsShowTheirMarks(actions: seq<Action>, t: nat, v: View)
    requires AllEnabled(INITIAL, actions)
    ensures var s, m := Run(INITIAL, actions), MarksAfter(actions);
            var emitted := Started(s.bar, s.clock).1;
            (emitted.Some? ==> ShowsMarks(emitted.value, m, |actions| + 1, s.bar.refreshing))
            && (Enabled(s, Finish(t, v)) ==> ShowsMarks(Finished(s.bar, v, s.clock).1, m, |actions| + 1, s.bar.refreshing))
  {
    MarksAreCarried(actions);
  }

  // ----- the reads of an accepted refresh ----------------------------------

  /** How many reads of a thread have completed. */
  function ReadsOf(actions: seq<Action>, t: nat): nat {
    if actions == [] then 0
    else
      var a := actions[|actions| - 1];
      ReadsOf(actions[..|actions| - 1], t) + if a.Finish? && a.t == t then 1 else 0
  }

  /** How many a thread of each kind has completed, by where it stands. */
  predicate ReadsFit(th: Thread, done: nat) {
    match th.kind
    case Plain => done == if th.phase.Over? then 1 else 0
    case Asked(requested) => if th.phase.Over? then !requested && done == 1 else done == 0
    case Follower(i, ended) =>
      i <= 2 && (ended ==> i == 2) && (i == 2 && !th.phase.Waiting? ==> ended)
      && done == i + (if th.phase.Over? then 2 else 1) && (th.phase.Over? ==> i == 2)
  }

  ghost predicate AllReadsFit(s: System, actions: seq<Action>) {
    (forall t | t in s.threads :: t < s.next && ReadsFit(s.threads[t], ReadsOf(actions, t)))
    && forall t: nat | t >= s.next :: ReadsOf(actions, t) == 0
  }

  lemma {:induction false} ReadsFitThroughout(actions: seq<Action>)
    requires AllEnabled(INITIAL, actions)
    ensures AllReadsFit(Run(INITIAL, actions), actions)
    decreases actions
  {
    if actions != [] {
      var front, a := actions[..|actions| - 1], actions[|actions| - 1];
      assert actions == front + [a];
      RunSnoc(INITIAL, front, a);
      ReadsFitThroughout(front);
      ReadsFitStep(Run(INITIAL, front), front, a);
    }
  }

  lemma ReadsFitStep(s: System, front: seq<Action>, a: Action)
    requires AllReadsFit(s, front) && Enabled(s, a)
    ensures AllReadsFit(Do(s, a), front + [a])
  {
    hide Finished, Started;
    assert (front + [a])[..|front|] == front;
    assert forall t :: ReadsOf(front + [a], t) == ReadsOf(front, t) + if a.Finish? && a.t == t then 1 else 0;
  }

  /**
    A refresh whose poll was asked for reads four times and is then over: at once, and three times after.
    It ends just before the last of these, after exactly three.
  */
  lemma FollowUpsAreThree(actions: seq<Action>, t: nat)
    requires AllEnabled(INITIAL, actions) && t in Run(INITIAL, actions).threads
    ensures var s := Run(INITIAL, actions);
            var th := s.threads[t];
            (Enabled(s, End(t)) ==> ReadsOf(actions, t) == 3)
            && (th.kind.Follower? && th.phase.Over? ==> ReadsOf(actions, t) == 4 && th.kind.ended)
            && (th.kind.Follower? && th.kind.ended ==> ReadsOf(actions, t) >= 3)
            && (ReadsOf(actions, t) == 4 ==> th.phase.Over?)
  {
    ReadsFitThroughout(actions);
  }
}
