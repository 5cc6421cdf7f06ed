/**
 * The tracking session of `LegalBillablesTracker` (chrome-extension/content.js):
 * the fields `isTracking`, `startTime`, `totalTime` and `lastActivity`, and
 * what `startTimer`, `pauseTimer`, `resetTimer` and the activity monitor do
 * to them, as functions of the old session and the clock reading `now`
 * (milliseconds, the value `Date.now()` would return).
 */
module Clock {
  import opened Wrappers

  /** Milliseconds of inactivity after which the activity monitor pauses the timer. */
  const ActivityThreshold: nat := 30000

  /** Period of the activity monitor, in milliseconds. */
  const ActivityCheckInterval: nat := 5000

  datatype Session = Session(isTracking: bool, startTime: Option<nat>, totalTime: nat, lastActivity: nat)

  /** While tracking there is a start time, and it is not later than `now`. */
  predicate ReadyAt(s: Session, now: nat) {
    s.isTracking ==> s.startTime.Some? && s.startTime.value <= now
  }

  /** The session a freshly constructed tracker holds. */
  function Initial(now: nat): (s: Session)
    ensures ReadyAt(s, now) && !s.isTracking
    ensures s.startTime == None && s.totalTime == 0 && s.lastActivity == now
    ensures forall later: nat :: now <= later ==> Elapsed(s, later) == 0
  {
    Session(false, None, 0, now)
  }

  /** Time accumulated by the running interval, if any. */
  function Running(s: Session, now: nat): nat
    requires ReadyAt(s, now)
  {
    if s.isTracking then now - s.startTime.value else 0
  }

  /** The elapsed time `updateTimerDisplay` computes at `now`. */
  function Elapsed(s: Session, now: nat): (r: nat)
    requires ReadyAt(s, now)
    ensures r >= s.totalTime
    ensures !s.isTracking ==> r == s.totalTime
    ensures s.isTracking ==> r - s.totalTime == now - s.startTime.value
  {
    s.totalTime + Running(s, now)
  }

  /** `startTimer`. */
  function Start(s: Session, now: nat): (r: Session)
    requires ReadyAt(s, now)
    ensures ReadyAt(r, now) && r.isTracking
    ensures r.totalTime == s.totalTime && r.lastActivity == s.lastActivity
  {
    if !s.isTracking then s.(isTracking := true, startTime := Some(now)) else s
  }

  /** `pauseTimer`. */
  function Pause(s: Session, now: nat): (r: Session)
    requires ReadyAt(s, now)
    ensures ReadyAt(r, now) && !r.isTracking
    ensures r.totalTime == Elapsed(s, now)
    ensures r.startTime == s.startTime && r.lastActivity == s.lastActivity
  {
    if s.isTracking then s.(isTracking := false, totalTime := s.totalTime + (now - s.startTime.value))
    else s
  }

  /** `resetTimer`. */
  function Reset(s: Session): (r: Session)
    ensures !r.isTracking && r.totalTime == 0 && r.startTime == None
    ensures r.lastActivity == s.lastActivity
  {
    s.(isTracking := false, totalTime := 0, startTime := None)
  }

  /** An input event in the body or subject field records the activity time. */
  function Touch(s: Session, now: nat): (r: Session)
    ensures r.lastActivity == now
    ensures r.(lastActivity := s.lastActivity) == s
  {
    s.(lastActivity := now)
  }

  /** The activity monitor pauses when tracking and idle for strictly more than the threshold. */
  predicate IdleTooLong(s: Session, now: nat) {
    s.isTracking && now - s.lastActivity > ActivityThreshold
  }

  /** One firing of the activity monitor. */
  function Tick(s: Session, now: nat): (r: Session)
    requires ReadyAt(s, now)
    ensures ReadyAt(r, now)
  {
    if IdleTooLong(s, now) then Pause(s, now) else s
  }

  // ---------------------------------------------------------------------------
  // Properties of single operations
  // ---------------------------------------------------------------------------

  /** A session ready at one time is ready at every later time. */
  lemma ReadyLater(s: Session, now: nat, later: nat)
    requires ReadyAt(s, now) && now <= later
    ensures ReadyAt(s, later)
  {
  }

  /** `startTimer` from a paused session starts a new interval at `now`;
      on a running session it changes nothing; a second start is a no-op. */
  lemma StartSpec(s: Session, now: nat, later: nat)
    requires ReadyAt(s, now) && now <= later
    ensures !s.isTracking ==> Start(s, now) == s.(isTracking := true, startTime := Some(now))
    ensures s.isTracking ==> Start(s, now) == s
    ensures Elapsed(Start(s, now), now) == Elapsed(s, now)
    ensures Start(Start(s, now), later) == Start(s, now)
  {
  }

  /** `pauseTimer` folds the running interval into `totalTime`, which never decreases;
      a second pause is a no-op. */
  lemma PauseSpec(s: Session, now: nat, later: nat)
    requires ReadyAt(s, now) && now <= later
    ensures Pause(s, now).totalTime >= s.totalTime
    ensures s.isTracking ==> Pause(s, now).totalTime == s.totalTime + (now - s.startTime.value)
    ensures !s.isTracking ==> Pause(s, now) == s
    ensures Pause(Pause(s, now), later) == Pause(s, now)
  {
  }

  /** Between events the elapsed value grows at rate one exactly while tracking. */
  lemma ElapsedAdvance(s: Session, t1: nat, t2: nat)
    requires ReadyAt(s, t1) && t1 <= t2
    ensures ReadyAt(s, t2)
    ensures Elapsed(s, t2) == Elapsed(s, t1) + (if s.isTracking then t2 - t1 else 0)
  {
  }

  /** After a pause the elapsed value is frozen at its value at the moment of pausing. */
  lemma PauseFreezes(s: Session, now: nat, later: nat)
    requires ReadyAt(s, now) && now <= later
    ensures Elapsed(Pause(s, now), later) == Elapsed(s, now)
  {
  }

  /** The activity monitor pauses exactly when tracking and idle for more than 30 s; otherwise it changes nothing. */
  lemma TickSpec(s: Session, now: nat, later: nat)
    requires ReadyAt(s, now) && now <= later
    ensures Tick(s, now) != s <==> (s.isTracking && now - s.lastActivity > 30000)
    ensures IdleTooLong(s, now) ==> !Tick(s, now).isTracking && Elapsed(Tick(s, now), later) == Elapsed(s, now)
    ensures Tick(s, now).totalTime >= s.totalTime
  {
  }

  /** Focusing the body starts the timer but leaves `lastActivity` as it was:
      after more than 30 s without input, the next activity check pauses the
      timer again, and only the time up to that check is kept. */
  lemma StaleFocusStart(s: Session, now: nat, later: nat)
    requires ReadyAt(s, now) && !s.isTracking && now <= later
    requires now - s.lastActivity > ActivityThreshold
    ensures Start(s, now).isTracking
    ensures !Tick(Start(s, now), later).isTracking
    ensures Tick(Start(s, now), later).totalTime == s.totalTime + (later - now)
  {
  }

  /** With the monitor firing every 5 s, the first check more than 30 s after
      the last input falls at most 35 s after it: it pauses the timer, and the
      time counted since the last input is more than 30 s and at most 35 s. */
  lemma IdleTimeBounded(s: Session, now: nat)
    requires s.isTracking && ReadyAt(s, s.lastActivity)
    requires s.lastActivity + ActivityThreshold < now <= s.lastActivity + ActivityThreshold + ActivityCheckInterval
    ensures ReadyAt(s, now)
    ensures !Tick(s, now).isTracking
    ensures ActivityThreshold < Tick(s, now).totalTime - Elapsed(s, s.lastActivity)
    ensures Tick(s, now).totalTime - Elapsed(s, s.lastActivity) <= ActivityThreshold + ActivityCheckInterval
  {
    ElapsedAdvance(s, s.lastActivity, now);
  }

  // ---------------------------------------------------------------------------
  // Traces of events
  // ---------------------------------------------------------------------------

  datatype Kind = StartEvent | PauseEvent | TickEvent | InputEvent
  datatype Event = Event(kind: Kind, time: nat)

  /** Event times never go backwards, and none precedes `t0`. */
  predicate Chronological(t0: nat, evs: seq<Event>) {
    (forall k :: 0 <= k < |evs| ==> t0 <= evs[k].time) &&
    (forall j, k :: 0 <= j < k < |evs| ==> evs[j].time <= evs[k].time)
  }

  function Apply(s: Session, e: Event): (r: Session)
    requires ReadyAt(s, e.time)
    ensures ReadyAt(r, e.time)
  {
    match e.kind
    case StartEvent => Start(s, e.time)
    case PauseEvent => Pause(s, e.time)
    case TickEvent => Tick(s, e.time)
    case InputEvent => Touch(s, e.time)
  }

  /** The session after handling `evs` in order. */
  function Run(s: Session, t0: nat, evs: seq<Event>): (r: Session)
    requires ReadyAt(s, t0) && Chronological(t0, evs)
    ensures ReadyAt(r, if evs == [] then t0 else evs[|evs| - 1].time)
    decreases |evs|
  {
    if evs == [] then s
    else
      ReadyLater(s, t0, evs[0].time);
      var r := Apply(s, evs[0]);
      Run(r, evs[0].time, evs[1..])
  }

  /** The time in `[t0, tEnd]` during which the timer is running: the sum, over
      the gaps between consecutive events, of the gap length when the timer
      runs through it. */
  function TrackedTime(s: Session, t0: nat, evs: seq<Event>, tEnd: nat): nat
    requires ReadyAt(s, t0) && Chronological(t0, evs)
    requires forall k :: 0 <= k < |evs| ==> evs[k].time <= tEnd
    requires t0 <= tEnd
    decreases |evs|
  {
    if evs == [] then (if s.isTracking then tEnd - t0 else 0)
    else
      ReadyLater(s, t0, evs[0].time);
      (if s.isTracking then evs[0].time - t0 else 0) + TrackedTime(Apply(s, evs[0]), evs[0].time, evs[1..], tEnd)
  }

  /** The elapsed value at `tEnd` is the one at `t0` plus every millisecond the
      timer was running since, whatever the interleaving of starts, pauses,
      activity ticks and input events. */
  lemma {:induction false} ElapsedIsTrackedTime(s: Session, t0: nat, evs: seq<Event>, tEnd: nat)
    requires ReadyAt(s, t0) && Chronological(t0, evs) && t0 <= tEnd
    requires forall k :: 0 <= k < |evs| ==> evs[k].time <= tEnd
    ensures ReadyAt(Run(s, t0, evs), tEnd)
    ensures Elapsed(Run(s, t0, evs), tEnd) == Elapsed(s, t0) + TrackedTime(s, t0, evs, tEnd)
    decreases |evs|
  {
    if evs != [] {
      var e := evs[0];
      ReadyLater(s, t0, e.time);
      var r := Apply(s, e);
      assert Elapsed(r, e.time) == Elapsed(s, e.time);
      ElapsedAdvance(s, t0, e.time);
      ElapsedIsTrackedTime(r, e.time, evs[1..], tEnd);
    }
  }

  /** Without a reset, the accumulated total never decreases over a trace. */
  lemma {:induction false} TotalNeverDecreases(s: Session, t0: nat, evs: seq<Event>)
    requires ReadyAt(s, t0) && Chronological(t0, evs)
    ensures Run(s, t0, evs).totalTime >= s.totalTime
    decreases |evs|
  {
    if evs != [] {
      ReadyLater(s, t0, evs[0].time);
      var r := Apply(s, evs[0]);
      assert r.totalTime >= s.totalTime;
      TotalNeverDecreases(r, evs[0].time, evs[1..]);
    }
  }

  /** After a reset, a trace that ends with a pause leaves exactly the tracked time in `totalTime`. */
  lemma ResetThenTrace(s: Session, t0: nat, evs: seq<Event>, tEnd: nat)
    requires Chronological(t0, evs) && t0 <= tEnd
    requires forall k :: 0 <= k < |evs| ==> evs[k].time <= tEnd
    ensures !Run(Reset(s), t0, evs).isTracking ==>
              Run(Reset(s), t0, evs).totalTime == TrackedTime(Reset(s), t0, evs, tEnd)
  {
    ElapsedIsTrackedTime(Reset(s), t0, evs, tEnd);
  }
}
