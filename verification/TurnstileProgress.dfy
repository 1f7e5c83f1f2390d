/** The admission lock lets acquisitions in: what each try comes to in every run, and that no reachable
    state keeps anyone out (codebase.rs 832-868). */
module TurnstileProgress {
  import opened Wrappers
  import opened Turnstile

  // ----- what a try comes to -----

  /** In every run a try of the turnstile passes it, whatever the deadline, exactly when no acquisition is
      between turnstile and lock; it gives up exactly when one is and the deadline has passed. */
  lemma TurnstileExactly(events: seq<Event>, s: State, p: Who, mode: Mode, expired: bool)
    requires Runs(INITIAL, events, s) && PlaceOf(s, p) == AtTurnstile(mode)
    ensures var after := Step(s, p, TryTurnstile(expired)); var free := forall q: Who :: !Inside(PlaceOf(s, q));
      && after.Some?
      && (PlaceOf(after.value, p) == Waiting(mode) <==> free)
      && (PlaceOf(after.value, p) == Idle <==> !free && expired)
      && (!free && !expired ==> after.value == s)
      && forall q: Who :: q != p ==> PlaceOf(after.value, q) == PlaceOf(s, q)
  {
    RunKeeps(INITIAL, events, s);
  }

  /** Another acquisition has the lock, and one of the two is a writer. */
  predicate Conflicts(s: State, q: Who, mode: Mode) {
    match PlaceOf(s, q)
    case Acquired(other) => other == Exclusive || mode == Exclusive
    case Holding(other) => other == Exclusive || mode == Exclusive
    case _ => false
  }

  /** In every run a try of the lock gets it, whatever the deadline, exactly when no conflicting
      acquisition has it; it gives up exactly when one has and the deadline has passed. */
  lemma LockExactly(events: seq<Event>, s: State, p: Who, mode: Mode, expired: bool)
    requires Runs(INITIAL, events, s) && PlaceOf(s, p) == Waiting(mode)
    ensures var after := Step(s, p, TryLock(expired)); var free := forall q :: !Conflicts(s, q, mode);
      && after.Some?
      && (PlaceOf(after.value, p) == Acquired(mode) <==> free)
      && (PlaceOf(after.value, p) == GivingUp <==> !free && expired)
      && (!free && !expired ==> after.value == s)
      && forall q: Who :: q != p ==> PlaceOf(after.value, q) == PlaceOf(s, q)
  {
    RunKeeps(INITIAL, events, s);
    GrantsExactly(s, p, mode);
  }

  lemma GrantsExactly(s: State, p: Who, mode: Mode)
    requires Inv(s) && PlaceOf(s, p) == Waiting(mode)
    ensures Grants(s.holders, mode) <==> forall q :: !Conflicts(s, q, mode)
  {
    if Grants(s.holders, mode) {
      forall q ensures !Conflicts(s, q, mode) {
        assert q in s.places || PlaceOf(s, q) == Idle;
      }
    } else {
      var q :| q in s.holders && (mode == Exclusive || s.holders[q] == Exclusive);
      assert Conflicts(s, q, mode);
    }
  }

  // ----- nobody in the way -----

  lemma TwoSteps(s: State, e: Event, events: seq<Event>, mid: State, t: State)
    requires Step(s, e.who, e.action) == Some(mid) && Runs(mid, events, t)
    ensures Runs(s, [e] + events, t)
  {
    assert ([e] + events)[1..] == events;
  }

  /** The steps of an acquisition that nothing keeps waiting. */
  function Entering(p: Who, expired: bool): seq<Event> {
    [Event(p, TryTurnstile(expired))] + ([Event(p, TryLock(expired))] + ([Event(p, OpenTurnstile)] + []))
  }

  /** With the turnstile free and no conflicting holder an acquisition gets in, reader or writer, even
      past its deadline; it leaves the turnstile free and everyone else where they were. */
  lemma FreeLockIsTaken(events: seq<Event>, s: State, p: Who, mode: Mode, expired: bool) returns (t: State)
    requires Runs(INITIAL, events, s) && PlaceOf(s, p) == Idle
    requires (forall q: Who :: !Inside(PlaceOf(s, q))) && (forall q :: !Conflicts(s, q, mode))
    ensures Runs(s, [Event(p, Arrive(mode))] + Entering(p, expired), t)
    ensures PlaceOf(t, p) == Holding(mode) && t.turnstile == None && t.holders == s.holders[p := mode]
    ensures forall q: Who :: q != p ==> PlaceOf(t, q) == PlaceOf(s, q)
  {
    RunKeeps(INITIAL, events, s);
    var arrived := MoveTo(s, p, AtTurnstile(mode));
    StepKeeps(s, p, Arrive(mode));
    forall q ensures !Conflicts(arrived, q, mode) {
      assert !Conflicts(s, q, mode);
    }
    t := Enters(arrived, p, mode, expired);
    TwoSteps(s, Event(p, Arrive(mode)), Entering(p, expired), arrived, t);
  }

  lemma Enters(s: State, p: Who, mode: Mode, expired: bool) returns (t: State)
    requires Inv(s) && PlaceOf(s, p) == AtTurnstile(mode) && s.turnstile == None
    requires forall q :: !Conflicts(s, q, mode)
    ensures Runs(s, Entering(p, expired), t) && PlaceOf(t, p) == Holding(mode)
    ensures t.turnstile == None && t.holders == s.holders[p := mode]
    ensures forall q: Who :: q != p ==> PlaceOf(t, q) == PlaceOf(s, q)
  {
    var waits := Step(s, p, TryTurnstile(expired)).value;
    StepKeeps(s, p, TryTurnstile(expired));
    forall q ensures !Conflicts(waits, q, mode) {
      assert !Conflicts(s, q, mode);
    }
    GrantsExactly(waits, p, mode);
    var has := Step(waits, p, TryLock(expired)).value;
    t := Step(has, p, OpenTurnstile).value;
    TwoSteps(has, Event(p, OpenTurnstile), [], t, t);
    TwoSteps(waits, Event(p, TryLock(expired)), [Event(p, OpenTurnstile)] + [], has, t);
    TwoSteps(s, Event(p, TryTurnstile(expired)), [Event(p, TryLock(expired))] + ([Event(p, OpenTurnstile)] + []), waits, t);
  }

  // ----- nobody is kept out -----

  /** Nobody dies, arrives or gives up. */
  predicate Patient(events: seq<Event>) {
    forall i :: 0 <= i < |events| ==>
      match events[i].action
      case TryTurnstile(expired) => !expired
      case TryLock(expired) => !expired
      case OpenTurnstile => true
      case Release => true
      case _ => false
  }

  lemma {:induction false} RunsJoin(s: State, a: seq<Event>, mid: State, b: seq<Event>, t: State)
    requires Runs(s, a, mid) && Runs(mid, b, t)
    ensures Runs(s, a + b, t)
    decreases |a|
  {
    if a == [] {
      assert a + b == b;
    } else {
      assert (a + b)[1..] == a[1..] + b && (a + b)[0] == a[0];
      RunsJoin(Step(s, a[0].who, a[0].action).value, a[1..], mid, b, t);
    }
  }

  lemma PatientJoin(a: seq<Event>, b: seq<Event>)
    requires Patient(a) && Patient(b)
    ensures Patient(a + b)
  {
  }

  predicate NobodyAcquires(s: State) {
    forall q :: q in s.holders ==> PlaceOf(s, q).Holding?
  }

  /** One holder lets go, and nobody else moves. */
  lemma OneReleases(s: State, p: Who)
    requires Inv(s) && NobodyAcquires(s) && p in s.holders
    ensures var next := Step(s, p, Release);
      && next.Some? && Inv(next.value) && NobodyAcquires(next.value) && next.value.turnstile == s.turnstile
      && next.value.holders == s.holders - {p} && |next.value.holders| < |s.holders|
      && forall q: Who :: q != p ==> PlaceOf(next.value, q) == PlaceOf(s, q)
  {
    assert PlaceOf(s, p).Holding?;
    StepKeeps(s, p, Release);
    Fewer(s.holders, p);
  }

  /** Everyone who holds the lock lets it go. */
  lemma {:induction false} AllRelease(s: State) returns (events: seq<Event>, t: State)
    requires Inv(s) && NobodyAcquires(s)
    ensures Runs(s, events, t) && Patient(events) && Inv(t) && t.holders == map[] && t.turnstile == s.turnstile
    ensures forall q: Who :: q !in s.holders ==> PlaceOf(t, q) == PlaceOf(s, q)
    decreases |s.holders|
  {
    if s.holders == map[] {
      return [], s;
    }
    var p :| p in s.holders;
    assert Patient([Event(p, Release)]);
    hide Inv, Step, NobodyAcquires, PlaceOf, Runs, Patient;
    OneReleases(s, p);
    var next := Step(s, p, Release).value;
    var rest;
    rest, t := AllRelease(next);
    TwoSteps(s, Event(p, Release), rest, next, t);
    PatientJoin([Event(p, Release)], rest);
    events := [Event(p, Release)] + rest;
  }

  lemma NobodyLeft(s: State, mode: Mode)
    requires Inv(s) && s.holders == map[]
    ensures forall q :: !Conflicts(s, q, mode)
  {
    assert forall q: Who :: q in s.places || PlaceOf(s, q) == Idle;
  }

  /** The one that waits gets the free lock and comes out. */
  lemma WaiterComesOut(s: State, w: Who) returns (events: seq<Event>, t: State)
    requires Inv(s) && PlaceOf(s, w).Waiting? && s.holders == map[]
    ensures Runs(s, events, t) && Patient(events) && Inv(t) && t.turnstile == None
    ensures forall q: Who :: q != w ==> PlaceOf(t, q) == PlaceOf(s, q)
  {
    var has := Step(s, w, TryLock(false)).value;
    StepKeeps(s, w, TryLock(false));
    t := Step(has, w, OpenTurnstile).value;
    StepKeeps(has, w, OpenTurnstile);
    TwoSteps(has, Event(w, OpenTurnstile), [], t, t);
    TwoSteps(s, Event(w, TryLock(false)), [Event(w, OpenTurnstile)] + [], has, t);
    events := [Event(w, TryLock(false))] + ([Event(w, OpenTurnstile)] + []);
  }

  lemma Places(s: State, p: Who)
    requires Inv(s) && PlaceOf(s, p).AtTurnstile?
    ensures p !in s.holders && s.turnstile != Some(p)
    ensures s.turnstile.Some? ==> Inside(PlaceOf(s, s.turnstile.value))
    ensures s.turnstile.Some? && PlaceOf(s, s.turnstile.value).Waiting? ==>
      NobodyAcquires(s) && s.turnstile.value !in s.holders
    ensures s.turnstile.None? ==> NobodyAcquires(s)
  {
  }

  /** Whoever is between turnstile and lock comes out. */
  lemma InsideComesOut(s: State, p: Who) returns (events: seq<Event>, t: State)
    requires Inv(s) && PlaceOf(s, p).AtTurnstile?
    ensures Runs(s, events, t) && Patient(events) && Inv(t) && t.turnstile == None && PlaceOf(t, p) == PlaceOf(s, p)
  {
    Places(s, p);
    if s.turnstile == None {
      return [], s;
    }
    var w := s.turnstile.value;
    if PlaceOf(s, w).Waiting? {
      hide Inv, Runs, PlaceOf, Patient;
      var gone, mid := AllRelease(s);
      var last;
      last, t := WaiterComesOut(mid, w);
      PatientJoin(gone, last);
      RunsJoin(s, gone, mid, last, t);
      events := gone + last;
    } else {
      t := Step(s, w, OpenTurnstile).value;
      StepKeeps(s, w, OpenTurnstile);
      TwoSteps(s, Event(w, OpenTurnstile), [], t, t);
      events := [Event(w, OpenTurnstile)] + [];
    }
  }

  /** From every state of every run, an acquisition at the turnstile can still get the lock without anyone
      dying or giving up: there is no deadlock, and no state from which it is shut out. */
  lemma NobodyIsShutOut(events: seq<Event>, s: State, p: Who, mode: Mode) returns (more: seq<Event>, t: State)
    requires Runs(INITIAL, events, s) && PlaceOf(s, p) == AtTurnstile(mode)
    ensures Runs(s, more, t) && Patient(more) && PlaceOf(t, p) == Holding(mode)
  {
    RunKeeps(INITIAL, events, s);
    assert Patient(Entering(p, false));
    hide Inv, Runs, PlaceOf, NobodyAcquires, Patient, Entering, Inside, Conflicts;
    var out, open := InsideComesOut(s, p);
    Places(open, p);
    var gone, empty := AllRelease(open);
    NobodyLeft(empty, mode);
    t := Enters(empty, p, mode, false);
    RunsJoin(open, gone, empty, Entering(p, false), t);
    RunsJoin(s, out, open, gone + Entering(p, false), t);
    PatientJoin(gone, Entering(p, false));
    PatientJoin(out, gone + Entering(p, false));
    more := out + (gone + Entering(p, false));
  }
}
