/**
  The menu bar's shared state (apps/menubar/main.go): what each critical section under
  `mu` does to it. `Bar` is the state as a value; `Menubar` is the object whose methods are
  the critical sections.
*/
module Refresh {
  import opened Basics

  /** Seconds on a clock that never reads zero; zero is the zero time. */
  type Time = nat

  datatype ReadError = NoDaemon | Slow | Unauthorized | Failed

  /** `explain`: the cause, and the date of the reading it is shown over (zero: over none). */
  datatype Message = Message(cause: ReadError, shown: Time)

  datatype View = View(
    glance: Option<string>,
    err: Option<ReadError>,
    error: Option<Message>,
    waiting: bool,
    note: Option<string>,
    noteWarn: bool,
    loadingSince: Time,
    refreshing: bool,
    ring: string,
    updated: Time)

  const NO_VIEW := View(None, None, None, false, None, false, 0, false, "", 0)

  datatype Bar = Bar(
    last: View,
    inFlight: int,
    loadingSince: Time,
    refreshing: bool,
    note: string,
    noteWarn: bool,
    noteUntil: Time,
    ring: string)

  const IDLE_BAR := Bar(NO_VIEW, 0, 0, false, "", false, 0, "")

  /** What `read` may return: a glance with the time it was computed, or an error with neither. */
  predicate Reading(v: View) {
    && v.error.None? && !v.waiting && v.note.None? && !v.noteWarn && v.loadingSince == 0 && !v.refreshing && v.ring == ""
    && v.updated != 0
    && (v.err.None? <==> v.glance.Some?)
  }

  predicate Good(v: View) { v.err.None? }

  /** Seconds between asking and the last follow-up read, and one more for the note. */
  const LAST_FOLLOW_UP := 35

  function Noted(v: View, b: Bar, now: Time): View {
    if now < b.noteUntil then v.(note := Some(b.note), noteWarn := b.noteWarn) else v
  }

  // ----- the critical sections as functions --------------------------------

  /** `startRead`: the new state, and the view it emits when this read is the only one. */
  function Started(b: Bar, now: Time): (Bar, Option<View>) {
    var b' := b.(inFlight := b.inFlight + 1);
    if b'.inFlight > 1 then (b', None)
    else
      var b'' := b'.(loadingSince := now);
      (b'', Some(Noted(b''.last.(loadingSince := now, refreshing := b''.refreshing, ring := b''.ring), b'', now)))
  }

  /** The view with its loading mark, before errors are looked at. */
  function Marked(b: Bar, v: View): View {
    if b.inFlight - 1 > 0 then v.(loadingSince := b.loadingSince) else v
  }

  /** The reading time an error may still show: none without a kept glance or without a daemon. */
  function KeptSince(b: Bar, cause: ReadError): Time {
    if b.last.glance.Some? && cause != NoDaemon then b.last.updated else 0
  }

  /** What a completed read turns into, before the flags every view carries. */
  function Settled(b: Bar, v: View): View {
    var m := Marked(b, v);
    if v.err.None? then m
    else
      var shown := KeptSince(b, v.err.value);
      var failed := m.(error := Some(Message(v.err.value, shown)), waiting := v.err.value == Slow);
      if shown == 0 then failed
      else b.last.(error := failed.error, waiting := failed.waiting, loadingSince := failed.loadingSince)
  }

  /** The locked part of `refresh`: the new state, the view shown and the glance given to the alerter. */
  function Finished(b: Bar, v: View, now: Time): (Bar, View, Option<string>) {
    var view := Settled(b, v).(refreshing := b.refreshing);
    var b' := b.(inFlight := b.inFlight - 1, last := if v.err.None? then Marked(b, v) else b.last);
    (b', Noted(view.(ring := b.ring), b', now), if view.error.None? then view.glance else None)
  }

  /** `refreshNow` once the daemon has answered. */
  function Accepted(b: Bar, note: string, requested: bool, now: Time): Bar {
    b.(note := note, noteWarn := false, noteUntil := now + LAST_FOLLOW_UP + 1, refreshing := requested)
  }

  /** What the last follow-up does before it reads. */
  function Ended(b: Bar, now: Time): Bar {
    b.(refreshing := false, noteUntil := now)
  }

  // ----- the object --------------------------------------------------------

  class Menubar {
    var last: View
    var inFlight: int
    var loadingSince: Time
    var refreshing: bool
    var note: string
    var noteWarn: bool
    var noteUntil: Time
    var ring: string

    constructor ()
      ensures State() == IDLE_BAR
    {
      last, inFlight, loadingSince, refreshing := NO_VIEW, 0, 0, false;
      note, noteWarn, noteUntil, ring := "", false, 0, "";
    }

    function State(): Bar
      reads this
    {
      Bar(last, inFlight, loadingSince, refreshing, note, noteWarn, noteUntil, ring)
    }

    method StartRead(now: Time) returns (emitted: Option<View>)
      modifies this
      ensures (State(), emitted) == Started(old(State()), now)
    {
      inFlight := inFlight + 1;
      if inFlight > 1 {
        return None;
      }
      loadingSince := now;
      var v := last;
      v := v.(loadingSince := loadingSince, refreshing := refreshing, ring := ring);
      if now < noteUntil {
        v := v.(note := Some(note), noteWarn := noteWarn);
      }
      return Some(v);
    }

    /** Counts the read out and decides what it leaves on screen. */
    method Settle(reading: View) returns (v: View)
      modifies this
      ensures v == Settled(old(State()), reading)
      ensures State() == old(State()).(inFlight := old(inFlight) - 1,
                                       last := if reading.err.None? then Marked(old(State()), reading) else old(last))
    {
      v := reading;
      inFlight := inFlight - 1;
      if inFlight > 0 {
        v := v.(loadingSince := loadingSince);
      }
      if v.err.Some? {
        var shown := 0;
        if last.glance.Some? && v.err.value != NoDaemon {
          shown := last.updated;
        }
        v := v.(error := Some(Message(v.err.value, shown)), waiting := v.err.value == Slow);
        if shown != 0 {
          // The kept view comes back with the error, and with this read's loading mark.
          v := last.(error := v.error, waiting := v.waiting, loadingSince := v.loadingSince);
        }
      } else {
        last := v;
      }
    }

    method FinishRead(reading: View, now: Time) returns (v: View, observed: Option<string>)
      modifies this
      ensures (State(), v, observed) == Finished(old(State()), reading, now)
    {
      v := Settle(reading);
      v := v.(refreshing := refreshing);
      observed := None;
      if v.error.None? && v.glance.Some? {
        observed := v.glance;
      }
      v := v.(ring := ring);
      if now < noteUntil {
        v := v.(note := Some(note), noteWarn := noteWarn);
      }
    }

    method AcceptRefresh(text: string, requested: bool, now: Time)
      modifies this
      ensures State() == Accepted(old(State()), text, requested, now)
    {
      note, noteWarn, noteUntil := text, false, now + LAST_FOLLOW_UP + 1;
      refreshing := requested;
    }

    method EndRefresh(now: Time)
      modifies this
      ensures State() == Ended(old(State()), now)
    {
      refreshing, noteUntil := false, now;
    }
  }
}
