/**
 The admission lock (codebase.rs 771-868, 1349-1356): a reader/writer lock behind a turnstile that is
 held only while waiting. Every system call is one step, taken by any of any number of acquisitions
 in any order; an acquisition owns its two descriptors, as the source opens them afresh.
 */
module Turnstile {
  import opened Wrappers

  type Who = nat

  datatype Mode = Shared | Exclusive

  /** Where an acquisition stands. `Acquired` and `GivingUp` still hold the turnstile: unlocking it is
      a call of its own. */
  datatype Place = Idle | AtTurnstile(mode: Mode) | Waiting(mode: Mode) | Acquired(mode: Mode) | GivingUp | Holding(mode: Mode)

  datatype State = State(turnstile: Option<Who>, holders: map<Who, Mode>, places: map<Who, Place>)

  datatype Action = Arrive(mode: Mode) | TryTurnstile(expired: bool) | TryLock(expired: bool) | OpenTurnstile | Release | Die

  const INITIAL := State(None, map[], map[])

  function PlaceOf(s: State, p: Who): Place {
    if p in s.places then s.places[p] else Idle
  }

  /** Whether `flock` grants the mode to one more descriptor. */
  predicate Grants(holders: map<Who, Mode>, mode: Mode) {
    match mode
    case Exclusive => holders == map[]
    case Shared => forall q :: q in holders ==> holders[q] == Shared
  }

  function MoveTo(s: State, p: Who, place: Place): State {
    s.(places := s.places[p := place])
  }

  /** One step of one acquisition, or `None` when it cannot take it. A failed try past the deadline
      gives up; before it, it is tried again. */
  function Step(s: State, p: Who, a: Action): Option<State> {
    match (a, PlaceOf(s, p))
    case (Arrive(mode), Idle) => Some(MoveTo(s, p, AtTurnstile(mode)))
    case (TryTurnstile(expired), AtTurnstile(mode)) =>
      if s.turnstile.None? then Some(MoveTo(s, p, Waiting(mode)).(turnstile := Some(p)))
      else if expired then Some(MoveTo(s, p, Idle))
      else Some(s)
    case (TryLock(expired), Waiting(mode)) =>
      if Grants(s.holders, mode) then Some(MoveTo(s, p, Acquired(mode)).(holders := s.holders[p := mode]))
      else if expired then Some(MoveTo(s, p, GivingUp))
      else Some(s)
    case (OpenTurnstile, Acquired(mode)) => Some(MoveTo(s, p, Holding(mode)).(turnstile := None))
    case (OpenTurnstile, GivingUp) => Some(MoveTo(s, p, Idle).(turnstile := None))
    case (Release, Holding(_)) => Some(MoveTo(s, p, Idle).(holders := s.holders - {p}))
    case (Die, _) =>
      // The kernel drops a dead process's locks.
      Some(MoveTo(s, p, Idle).(holders := s.holders - {p}, turnstile := if s.turnstile == Some(p) then None else s.turnstile))
    case _ => None
  }

  datatype Event = Event(who: Who, action: Action)

  /** The events of a run can be taken one after another, from `s` to `t`. */
  predicate Runs(s: State, events: seq<Event>, t: State)
    decreases |events|
  {
    if events == [] then t == s
    else
      var next := Step(s, events[0].who, events[0].action);
      next.Some? && Runs(next.value, events[1..], t)
  }

  predicate Inside(place: Place) {
    place.Waiting? || place.Acquired? || place.GivingUp?
  }

  /** Who is where, and who holds what. */
  predicate Inv(s: State) {
    && (forall p :: p in s.places && Inside(s.places[p]) ==> s.turnstile == Some(p))
    && (s.turnstile.Some? ==> Inside(PlaceOf(s, s.turnstile.value)))
    && (forall p :: p in s.holders ==> PlaceOf(s, p) == Acquired(s.holders[p]) || PlaceOf(s, p) == Holding(s.holders[p]))
    && (forall p :: p in s.places && (s.places[p].Acquired? || s.places[p].Holding?) ==> p in s.holders)
    && (forall p, q :: p in s.holders && q in s.holders && s.holders[p] == Exclusive ==> p == q)
  }

  /** Where the one that takes a step ends up, and what it then holds. */
  lemma StepMoves(s: State, p: Who, a: Action)
    requires Inv(s) && Step(s, p, a).Some?
    ensures var t := Step(s, p, a).value;
      && (forall q: Who :: q != p ==> PlaceOf(t, q) == PlaceOf(s, q) && (q in t.holders <==> q in s.holders))
      && (forall q: Who :: q != p && q in t.holders ==> t.holders[q] == s.holders[q])
      && (Inside(PlaceOf(t, p)) <==> t.turnstile == Some(p))
      && (t.turnstile != Some(p) ==> t.turnstile == None || (t.turnstile == s.turnstile && s.turnstile != Some(p)))
      && (t.turnstile == Some(p) ==> s.turnstile == None || s.turnstile == Some(p))
      && (t.turnstile == None ==> s.turnstile == None || s.turnstile == Some(p))
      && (p in t.holders <==> PlaceOf(t, p).Acquired? || PlaceOf(t, p).Holding?)
      && (p in t.holders ==> PlaceOf(t, p) == Acquired(t.holders[p]) || PlaceOf(t, p) == Holding(t.holders[p]))
      && (p in t.holders && p !in s.holders ==> Grants(s.holders, t.holders[p]))
      && (p in t.holders && p in s.holders ==> t.holders[p] == s.holders[p])
  {
  }

  lemma StepKeeps(s: State, p: Who, a: Action)
    requires Inv(s) && Step(s, p, a).Some?
    ensures Inv(Step(s, p, a).value)
  {
    hide Step;
    StepMoves(s, p, a);
    var t := Step(s, p, a).value;
    assert forall q :: q in t.places ==> PlaceOf(t, q) == t.places[q];
    assert forall q :: q in s.places ==> PlaceOf(s, q) == s.places[q];
    forall q | q in t.places && Inside(t.places[q]) ensures t.turnstile == Some(q) {
      assert q == p || PlaceOf(s, q) == t.places[q];
    }
    forall q | q in t.holders ensures PlaceOf(t, q) == Acquired(t.holders[q]) || PlaceOf(t, q) == Holding(t.holders[q]) {
      assert q == p || q in s.holders;
    }
    forall q | q in t.places && (t.places[q].Acquired? || t.places[q].Holding?) ensures q in t.holders {
      assert q == p || PlaceOf(s, q) == t.places[q];
    }
    if t.turnstile.Some? && t.turnstile != Some(p) {
      assert PlaceOf(t, t.turnstile.value) == PlaceOf(s, t.turnstile.value);
    }
  }

  lemma {:induction false} RunKeeps(s: State, events: seq<Event>, t: State)
    requires Inv(s) && Runs(s, events, t)
    ensures Inv(t)
    decreases |events|
  {
    if events != [] {
      StepKeeps(s, events[0].who, events[0].action);
      RunKeeps(Step(s, events[0].who, events[0].action).value, events[1..], t);
    }
  }

  /** In every run: one acquisition at most is between the turnstile and the lock; a writer has the
      lock alone; and one that is out, with or without the lock, left the turnstile open. */
  lemma RunsAreSafe(events: seq<Event>, s: State)
    requires Runs(INITIAL, events, s)
    ensures forall p: Who, q: Who :: Inside(PlaceOf(s, p)) && Inside(PlaceOf(s, q)) ==> p == q
    ensures forall p: Who, q: Who :: PlaceOf(s, p) == Holding(Exclusive) && PlaceOf(s, q).Holding? ==> p == q
    ensures forall p: Who :: PlaceOf(s, p).Holding? || PlaceOf(s, p).Idle? ==> s.turnstile != Some(p)
    ensures forall p: Who :: PlaceOf(s, p).Idle? ==> p !in s.holders
  {
    RunKeeps(INITIAL, events, s);
  }

  // ----- waiting -----

  /** `p` waits at every moment of the run. */
  predicate WaitsThrough(s: State, events: seq<Event>, p: Who)
    decreases |events|
  {
    PlaceOf(s, p).Waiting? &&
    (events != [] && Step(s, events[0].who, events[0].action).Some? ==>
      WaitsThrough(Step(s, events[0].who, events[0].action).value, events[1..], p))
  }

  /** The steps of a run that give a held lock back. */
  function Releases(s: State, events: seq<Event>): nat
    decreases |events|
  {
    if events == [] then 0
    else
      var e := events[0];
      var rest := match Step(s, e.who, e.action) case Some(t) => Releases(t, events[1..]) case None => 0;
      rest + if e.who in s.holders && (e.action.Release? || e.action.Die?) then 1 else 0
  }

  lemma StepWhileWaiting(s: State, e: Event, p: Who, t: State)
    requires Inv(s) && PlaceOf(s, p).Waiting? && Step(s, e.who, e.action) == Some(t) && PlaceOf(t, p).Waiting?
    ensures t.turnstile == Some(p) && PlaceOf(t, p) == PlaceOf(s, p)
    ensures t.holders == if e.action.Release? || e.action.Die? then s.holders - {e.who} else s.holders
  {
    assert s.turnstile == Some(p);
    assert e.action.TryLock? ==> e.who == p;
  }

  /** While `p` waits nobody gets the lock: the holders only give it back, so it is passed by no
      later arrival, and it waits for as many releases as there are holders in its way. */
  lemma {:induction false} WaitingIsNotOvertaken(s: State, events: seq<Event>, t: State, p: Who)
    requires Inv(s) && Runs(s, events, t) && WaitsThrough(s, events, p)
    ensures t.holders.Keys <= s.holders.Keys && forall q :: q in t.holders ==> t.holders[q] == s.holders[q]
    ensures |t.holders| + Releases(s, events) == |s.holders|
    ensures PlaceOf(t, p) == PlaceOf(s, p)
    decreases |events|
  {
    if events != [] {
      var e := events[0];
      var next := Step(s, e.who, e.action).value;
      StepKeeps(s, e.who, e.action);
      StepWhileWaiting(s, e, p, next);
      Fewer(s.holders, e.who);
      WaitingIsNotOvertaken(next, events[1..], t, p);
    }
  }

  lemma Fewer(holders: map<Who, Mode>, p: Who)
    ensures |holders - {p}| + (if p in holders then 1 else 0) == |holders|
  {
    assert (holders - {p}).Keys == holders.Keys - {p};
    assert |(holders - {p}).Keys| == |holders - {p}| && |holders.Keys| == |holders|;
  }

  /** Once as many releases came as there were holders, the waiter's next try gets the lock. */
  lemma WaiterIsNext(s: State, events: seq<Event>, t: State, p: Who, expired: bool)
    requires Inv(s) && Runs(s, events, t) && WaitsThrough(s, events, p) && Releases(s, events) == |s.holders|
    ensures var after := Step(t, p, TryLock(expired));
      after.Some? && PlaceOf(after.value, p) == Acquired(PlaceOf(s, p).mode) && after.value.holders == map[p := PlaceOf(s, p).mode]
  {
    WaitingIsNotOvertaken(s, events, t, p);
    assert t.holders == map[];
  }

  lemma WriterIsAlone(s: State, q: Who)
    requires Inv(s) && q in s.holders && s.holders[q] == Exclusive
    ensures s.holders == map[q := Exclusive] && |s.holders| == 1
  {
    assert s.holders.Keys == {q};
  }

  /** In every run a reader waits for one release at most, and for none when it began to wait behind
      readers: its next try gets the lock exactly when no writer held it then, or one has let go since. */
  lemma ReadersWaitForOneWriter(before: seq<Event>, s: State, events: seq<Event>, t: State, p: Who, expired: bool)
    requires Runs(INITIAL, before, s) && PlaceOf(s, p) == Waiting(Shared)
    requires Runs(s, events, t) && WaitsThrough(s, events, p)
    ensures var after := Step(t, p, TryLock(expired));
      after.Some? && (PlaceOf(after.value, p) == Acquired(Shared) <==>
        (forall q :: q in s.holders ==> s.holders[q] == Shared) || Releases(s, events) > 0)
  {
    hide Inv, Runs, WaitsThrough, Releases;
    RunKeeps(INITIAL, before, s);
    WaitingIsNotOvertaken(s, events, t, p);
    if q :| q in s.holders && s.holders[q] == Exclusive {
      WriterIsAlone(s, q);
      OneIn(t.holders.Keys, q);
      assert |t.holders.Keys| == |t.holders|;
      assert Releases(s, events) > 0 ==> t.holders == map[];
    }
  }

  lemma OneIn(keys: set<Who>, q: Who)
    requires keys <= {q}
    ensures |keys| == if q in keys then 1 else 0
  {
    assert keys == if q in keys then {q} else {};
  }
}
