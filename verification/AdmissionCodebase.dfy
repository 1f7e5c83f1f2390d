/** `admit_event` and `recover_journal` as they run: one durable write after another, until they are
 done or the process dies. `writes` is how many durable writes the process lives to make. */
module AdmissionCodebase {
  import opened Wrappers
  import opened Utf8
  import opened AdmissionDisk

  class Codebase {
    var staging: map<Digest, Bytes>
    var journal: seq<Slot>
    var markers: seq<Marker>
    var events: map<Digest, Bytes>
    var index: Option<map<Digest, nat>>
    var receipts: map<Digest, Receipt>

    ghost function State(): Disk
      reads this
    {
      Disk(staging, journal, markers, events, index, receipts)
    }

    /** `count_files_capped`: how many events there are, stopping once past `cap`. */
    method CountCapped(cap: nat) returns (observed: nat, capped: bool)
      ensures capped <==> |events| > cap
      ensures observed == if capped then cap + 1 else |events|
    {
      observed := 0;
      var left := events.Keys;
      while left != {}
        invariant observed + |left| == |events| && observed <= cap
        decreases left
      {
        var digest :| digest in left;
        left := left - {digest};
        observed := observed + 1;
        if observed > cap {
          return observed, true;
        }
      }
      capped := false;
    }

    /** `total_file_bytes`. */
    method TotalBytes() returns (total: nat)
      ensures total == Total(events)
    {
      total := 0;
      var left := events;
      while left != map[]
        invariant total + Total(left) == Total(events)
        decreases |left|
      {
        var digest :| digest in left;
        TotalWithout(left, digest);
        total := total + |left[digest]|;
        assert left.Keys == (left - {digest}).Keys + {digest};
        left := left - {digest};
      }
    }

    /** `check_intake_ceiling`: true exactly when both ceilings leave room. */
    method CheckIntakeCeiling(incoming: nat, incomingBytes: nat) returns (room: bool)
      ensures room <==> Room(events, incoming, incomingBytes)
    {
      var headroom := if incoming > EVENT_CEILING then 0 else EVENT_CEILING - incoming;
      var count, capped := CountCapped(headroom);
      var bytes := 0;
      if !capped {
        bytes := TotalBytes();
      }
      var overCount := capped || count + incoming > EVENT_CEILING;
      room := !(overCount || bytes + incomingBytes > BYTES_CEILING);
    }

    /** Completes the entry at `g`: the index, its receipt, done. */
    method CompleteEntry(g: nat, writes: nat) returns (alive: bool, left: nat)
      requires g < |journal| && journal[g].Entry?
      modifies this`index, this`receipts, this`journal
      ensures var c := Complete(old(State()), g);
        if alive then writes >= 3 && left == writes - 3 && State() == c[2]
        else writes < 3 && State() == (if writes == 0 then old(State()) else c[writes - 1])
    {
      ghost var d := State();
      if writes == 0 {
        return false, 0;
      }
      index := Some(IndexValue(events));
      assert State() == Refreshed(d);
      if writes == 1 {
        return false, 0;
      }
      var e := journal[g];
      if e.digest !in receipts {
        receipts := receipts[e.digest := Receipt(e.repository, e.digest, e.kind, e.generation, true)];
      }
      assert State() == ReceiptWritten(Refreshed(d), g);
      if writes == 2 {
        return false, 0;
      }
      journal := journal[g := e.(phase := Done, recovery := Some(Completed))];
      return true, writes - 3;
    }

    /** One turn of the loop of `recover_journal`. */
    method RecoverEntry(g: nat, uuid: string, writes: nat) returns (outcome: Option<Outcome>, left: nat)
      requires g < |journal|
      modifies this
      ensures Reaches(RecoverOne(old(State()), g, uuid), writes, State(), outcome)
      ensures outcome != Some(Crashed) ==> left == writes - (|RecoverOne(old(State()), g, uuid).states| - 1)
    {
      hide Complete, IndexValue, Kept;
      ghost var d := State();
      left := writes;
      var e := journal[g];
      if e.Malformed? {
        return Some(Refused(MalformedEntry)), left;
      }
      if e.phase == Done {
        return None, left;
      }
      if e.repository != uuid {
        return Some(Refused(ForeignRepository)), left;
      }
      if e.phase.Unknown? {
        return Some(Refused(UnknownState)), left;
      }
      var rolledBack := false;
      if e.phase == Staged || e.phase == Prepared {
        if e.digest in staging {
          var bytes := staging[e.digest];
          if Sha256(bytes) == e.digest {
            if e.digest in events && events[e.digest] != bytes {
              return Some(Refused(DigestMismatch)), left;
            }
            if left == 0 {
              return Some(Crashed), 0;
            }
            left := left - 1;
            events := Kept(events, e.digest, bytes);
          } else {
            rolledBack := true;
          }
          if left == 0 {
            return Some(Crashed), 0;
          }
          left := left - 1;
          staging := staging - {e.digest};
        } else if e.digest !in events {
          rolledBack := true;
        }
      } else if e.digest !in events {
        return Some(Refused(EventAbsent)), left;
      }
      if rolledBack {
        if left == 0 {
          return Some(Crashed), 0;
        }
        left := left - 1;
        journal := journal[g := e.(phase := Done, recovery := Some(RolledBack))];
        return None, left;
      }
      ghost var before := State();
      var alive, rest := CompleteEntry(g, left);
      assert before == d || before == Unstaged(d.(events := Kept(d.events, e.digest, d.staging[e.digest])), e.digest);
      if !alive {
        return Some(Crashed), 0;
      }
      return None, rest;
    }

    /** `recover_journal`. */
    method RecoverJournal(uuid: string, writes: nat) returns (outcome: Option<Outcome>, left: nat)
      modifies this
      ensures Reaches(Recover(old(State()), 0, uuid), writes, State(), outcome)
      ensures outcome != Some(Crashed) ==> left == writes - (|Recover(old(State()), 0, uuid).states| - 1)
    {
      hide RecoverOne;
      ghost var all := Recover(State(), 0, uuid);
      ghost var past := [State()];
      left := writes;
      var g := 0;
      while g < |journal|
        invariant g <= |journal| && left == writes - (|past| - 1)
        invariant past != [] && past[|past| - 1] == State()
        invariant all == Join(Trace(past, None), Recover(State(), g, uuid))
        decreases |journal| - g
      {
        ghost var t, before := RecoverOne(State(), g, uuid), left;
        ghost var d := State();
        outcome, left := RecoverEntry(g, uuid, left);
        if outcome.Some? {
          ReachesInside(past, d, t, g, uuid, before, State(), outcome);
          return outcome, left;
        }
        JoinTwice(past, d, t, g, uuid);
        past := past + t.states[1..];
        g := g + 1;
      }
      var m := 0;
      while m < |markers|
        invariant m <= |markers| && MarkersRefusal(markers, uuid) == MarkersRefusal(markers[m..], uuid)
      {
        var refusal := MarkerRefusal(markers[m], uuid);
        assert markers[m..][1..] == markers[m + 1..];
        if refusal.Some? {
          return Some(Refused(refusal.value)), left;
        }
        m := m + 1;
      }
      return None, left;
    }

    /** The durable writes of `admit_event`, in order. */
    method AdmitNew(uuid: string, canonical: Bytes, kind: string, writes: nat) returns (outcome: Outcome)
      modifies this
      ensures Reaches(Admission(old(State()), uuid, canonical, kind), writes, State(), Some(outcome)) ||
              (Reaches(Admission(old(State()), uuid, canonical, kind), writes, State(), None) && outcome == Admitted)
    {
      ghost var d := State();
      var digest := Sha256(canonical);
      var generation := |journal| + 1;
      var created := digest !in events;
      var q := Request(uuid, canonical, kind, |journal|, created);
      var mismatch := digest in events && events[digest] != canonical;
      var i := 0;
      while i < WRITES
        invariant i <= WRITES && i <= writes && State() == Written(d, q, i)
        invariant mismatch == (digest in d.events && d.events[digest] != canonical)
        invariant mismatch ==> i <= 2
      {
        if mismatch && i == 2 {
          return Refused(DigestMismatch);
        }
        if i == writes {
          return Crashed;
        }
        match i {
          case 0 => staging := staging[digest := canonical];
          case 1 => journal := journal + [q.Slot(Staged)];
          case 2 => events := Kept(events, digest, canonical);
          case 3 => staging := staging - {digest};
          case 4 => journal := journal[q.g := q.Slot(Renamed)];
          case 5 => index := Some(IndexValue(events));
          case 6 => journal := journal[q.g := q.Slot(Indexed)];
          case 7 => receipts := receipts[digest := Receipt(uuid, digest, kind, generation, false)];
          case 8 => journal := journal[q.g := q.Slot(Receipted)];
          case _ => journal := journal[q.g := q.Slot(Done)];
        }
        i := i + 1;
      }
      return Admitted;
    }

    /** `admit_event`. */
    method AdmitEvent(uuid: string, canonical: Bytes, kind: string, writes: nat) returns (outcome: Outcome)
      modifies this
      ensures Admit(old(State()), uuid, canonical, kind, writes, State(), outcome)
    {
      if |canonical| > MAX_EVENT_BYTES {
        return Refused(TooLarge);
      }
      var recovered, left := RecoverJournal(uuid, writes);
      if recovered.Some? {
        return recovered.value;
      }
      var digest := Sha256(canonical);
      if digest in receipts {
        if receipts[digest].repository != uuid {
          return Refused(DigestMismatch);
        }
        return AlreadyAdmitted(receipts[digest]);
      }
      var room := CheckIntakeCeiling(1, |canonical|);
      if !room {
        return Refused(CeilingReached);
      }
      outcome := AdmitNew(uuid, canonical, kind, left);
    }
  }

  /** A turn that stops, stops the whole recovery at the same disk. */
  lemma ReachesInside(past: seq<Disk>, d: Disk, t: Trace, g: nat, uuid: string, left: nat, d': Disk, outcome: Option<Outcome>)
    requires past != [] && past[|past| - 1] == d && g < |d.journal| && t == RecoverOne(d, g, uuid)
    requires Reaches(t, left, d', outcome) && outcome.Some?
    ensures Reaches(Join(Trace(past, None), Recover(d, g, uuid)), |past| - 1 + left, d', outcome)
    ensures outcome != Some(Crashed) ==> |Join(Trace(past, None), Recover(d, g, uuid)).states| == |past| + |t.states| - 1
  {
  }

  /** A turn that goes on leaves the rest of the recovery as it was. */
  lemma JoinTwice(past: seq<Disk>, d: Disk, t: Trace, g: nat, uuid: string)
    requires past != [] && past[|past| - 1] == d && g < |d.journal| && t == RecoverOne(d, g, uuid) && t.error == None
    ensures Join(Trace(past, None), Recover(d, g, uuid)) ==
            Join(Trace(past + t.states[1..], None), Recover(t.Last(), g + 1, uuid))
  {
    JoinStates(past, t.states, Recover(t.Last(), g + 1, uuid).states);
  }

  lemma JoinStates(a: seq<Disk>, b: seq<Disk>, c: seq<Disk>)
    requires b != [] && c != []
    ensures a + (b + c[1..])[1..] == a + b[1..] + c[1..]
  {
  }
}
