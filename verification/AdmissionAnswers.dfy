/**
 When an event is admitted, when it is refused, and what the disk is afterwards (codebase.rs 874-1184):
 stated on the counts and sizes of what recovery leaves, not on the order of the writes.
 */
module AdmissionAnswers {
  import opened Wrappers
  import opened Utf8
  import opened AdmissionDisk
  import opened AdmissionJournal

  // ----- what recovery leaves -----

  lemma DoneIsPassed(d: Disk, uuid: string, g: nat)
    requires Inv(d, uuid) && g < |d.journal| - 1
    ensures RecoverOne(d, g, uuid) == Trace([d], None)
  {
  }

  lemma PassOver(d: Disk, uuid: string, g: nat)
    requires g < |d.journal| && RecoverOne(d, g, uuid) == Trace([d], None)
    ensures Recover(d, g, uuid) == Recover(d, g + 1, uuid)
  {
    hide RecoverOne;
    var u := Recover(d, g + 1, uuid);
    assert [d] + u.states[1..] == u.states;
  }

  /** Entries that are done are passed over. */
  lemma {:induction false} RecoverToLast(d: Disk, uuid: string, g: nat)
    requires Inv(d, uuid) && g < |d.journal|
    ensures Recover(d, g, uuid) == Recover(d, |d.journal| - 1, uuid)
    decreases |d.journal| - g
  {
    hide Inv, Recover, RecoverOne;
    if g < |d.journal| - 1 {
      DoneIsPassed(d, uuid, g);
      PassOver(d, uuid, g);
      RecoverToLast(d, uuid, g + 1);
    }
  }

  lemma LastIsOpen(d: Disk, uuid: string)
    requires Inv(d, uuid) && !AllDone(d)
    ensures d.journal != [] && LastSlot(d).Entry? && LastSlot(d).phase != Done
    ensures LastSlot(d).repository == uuid && LastSlot(d).generation == |d.journal|
  {
  }

  lemma RecoverLast(d: Disk, uuid: string)
    requires d.journal != [] && d.markers == [] && RecoverOne(d, |d.journal| - 1, uuid).error == None
    requires RecoverOne(d, |d.journal| - 1, uuid).Last().markers == []
    ensures Recover(d, |d.journal| - 1, uuid) == RecoverOne(d, |d.journal| - 1, uuid)
  {
    var t := RecoverOne(d, |d.journal| - 1, uuid);
    assert Recover(t.Last(), |d.journal|, uuid) == Trace([t.Last()], None);
    assert t.states + [t.Last()][1..] == t.states;
  }

  /** The unfinished event landed, its receipt there, its entry done; and nothing else. */
  ghost predicate Finishes(d: Disk, uuid: string, r: Disk)
    requires d.journal != [] && LastSlot(d).Entry?
  {
    var e := LastSlot(d);
    && r.events == d.events[e.digest := e.digest.bytes]
    && r.receipts == (if e.digest in d.receipts then d.receipts
                      else d.receipts[e.digest := Receipt(uuid, e.digest, e.kind, |d.journal|, true)])
    && r.journal == d.journal[|d.journal| - 1 := e.(phase := Done, recovery := Some(Completed))]
    && r.staging == (if e.phase == Staged then d.staging - {e.digest} else d.staging)
    && r.index == Some(map digest | digest in r.events :: |r.events[digest]|)
    && r.markers == []
  }

  lemma KeptIsUpdate(events: map<Digest, Bytes>, digest: Digest)
    requires ContentAddressed(events)
    ensures Kept(events, digest, digest.bytes) == events[digest := digest.bytes]
  {
  }

  /** The disk recovery completes: the unfinished event landed and no longer staged. */
  function Landed(d: Disk, e: Slot): Disk
    requires e.Entry?
  {
    d.(events := d.events[e.digest := e.digest.bytes],
       staging := if e.phase == Staged then d.staging - {e.digest} else d.staging)
  }

  lemma CompletedDisk(d: Disk, uuid: string)
    requires Inv(d, uuid) && !AllDone(d) && d.journal != [] && LastSlot(d).Entry?
    ensures Finishes(d, uuid, Complete(Landed(d, LastSlot(d)), |d.journal| - 1)[2])
  {
    LastIsOpen(d, uuid);
  }

  lemma OpenTurn(d: Disk, uuid: string)
    requires Inv(d, uuid) && !AllDone(d) && d.journal != [] && LastSlot(d).Entry? && LastSlot(d).phase != Done
    ensures var t, g := RecoverOne(d, |d.journal| - 1, uuid), |d.journal| - 1;
      t.error == None && |t.states| <= 6 && t.Last() == Complete(Landed(d, LastSlot(d)), g)[2]
  {
    hide Complete;
    var e, g := LastSlot(d), |d.journal| - 1;
    TurnTaken(d, uuid, g);
    KeptIsUpdate(d.events, e.digest);
    if e.phase == Staged && e.digest in d.staging {
      assert Unstaged(d.(events := Kept(d.events, e.digest, e.digest.bytes)), e.digest) == Landed(d, e);
    } else {
      assert d.events[e.digest := e.digest.bytes] == d.events;
      assert e.phase == Staged ==> d.staging - {e.digest} == d.staging;
      assert Landed(d, e) == d;
    }
  }

  /** Recovery finishes the one unfinished entry, in at most five writes, and touches nothing else. */
  lemma RecoveredExactly(d: Disk, uuid: string)
    requires Inv(d, uuid)
    ensures var t := Recover(d, 0, uuid);
      if AllDone(d) then t == Trace([d], None)
      else d.journal != [] && LastSlot(d).Entry? && t.error == None && |t.states| <= 6 && Finishes(d, uuid, t.Last())
  {
    if AllDone(d) {
      RecoverDone(d, uuid, 0);
    } else {
      hide RecoverOne, Recover, Complete;
      LastIsOpen(d, uuid);
      RecoverToLast(d, uuid, 0);
      OpenTurn(d, uuid);
      CompletedDisk(d, uuid);
      RecoverLast(d, uuid);
    }
  }

  // ----- what an admission leaves -----

  /** Exactly one more event, done entry and receipt, and an index that is the tree's. */
  ghost predicate Admits(r: Disk, uuid: string, canonical: Bytes, kind: string, d': Disk) {
    var digest, generation := Sha256(canonical), |r.journal| + 1;
    && d'.events == r.events[digest := canonical]
    && d'.journal == r.journal + [Entry(generation, uuid, digest, kind, Done, Some(digest !in r.events), None)]
    && d'.receipts == r.receipts[digest := Receipt(uuid, digest, kind, generation, false)]
    && d'.index == Some(map stored | stored in d'.events :: |d'.events[stored]|)
    && d'.staging == r.staging - {digest} && d'.markers == r.markers
  }

  lemma EarlyWrites(d: Disk, q: Request)
    requires q.g == |d.journal|
    ensures Written(d, q, 4) == d.(staging := d.staging - {q.Digest()}, journal := d.journal + [q.Slot(Staged)],
                                   events := Kept(d.events, q.Digest(), q.canonical))
  {
    hide Kept, Request.Slot;
    assert Written(d, q, 1) == Write(d, q, 0) by { assert Written(d, q, 0) == d; }
    assert Written(d, q, 2) == Write(Written(d, q, 1), q, 1);
    assert Written(d, q, 3) == Write(Written(d, q, 2), q, 2);
    assert Written(d, q, 4) == Write(Written(d, q, 3), q, 3);
    assert d.staging[q.Digest() := q.canonical] - {q.Digest()} == d.staging - {q.Digest()};
  }

  lemma LateWrites(d: Disk, q: Request, s: Disk)
    requires q.g == |d.journal| && s == Written(d, q, 4) && s.journal == d.journal + [q.Slot(Staged)]
    ensures Written(d, q, 10) == s.(journal := d.journal + [q.Slot(Done)], index := Some(IndexValue(s.events)),
                                    receipts := s.receipts[q.Digest() := Receipt(q.uuid, q.Digest(), q.kind, q.g + 1, false)])
  {
    hide IndexValue, Request.Slot;
    assert Written(d, q, 5) == Write(s, q, 4);
    assert Written(d, q, 6) == Write(Written(d, q, 5), q, 5);
    assert Written(d, q, 7) == Write(Written(d, q, 6), q, 6);
    assert Written(d, q, 8) == Write(Written(d, q, 7), q, 7);
    assert Written(d, q, 9) == Write(Written(d, q, 8), q, 8);
    assert Written(d, q, 10) == Write(Written(d, q, 9), q, 9);
    forall a, b ensures (d.journal + [a])[q.g := b] == d.journal + [b] {
    }
  }

  lemma AdmissionEnds(r: Disk, uuid: string, canonical: Bytes, kind: string)
    requires ContentAddressed(r.events)
    ensures var t := Admission(r, uuid, canonical, kind);
      t.error == None && |t.states| == 11 && Admits(r, uuid, canonical, kind, t.Last())
  {
    var q := RequestOf(r, uuid, canonical, kind);
    EarlyWrites(r, q);
    KeptIsUpdate(r.events, q.Digest());
    LateWrites(r, q, Written(r, q, 4));
  }

  // ----- the answers -----

  /** The writes a recovery and an admission together make at most. */
  const ENOUGH := 15

  /** One call of `admit_event` that is not cut off, by what recovery leaves: an oversized event is
      refused, one with a receipt is answered with it, a new one is admitted exactly when one more event
      and its bytes stay within both ceilings, and is refused for them exactly when they do not. Fifteen
      writes are enough for an answer. */
  lemma AdmittedExactly(d: Disk, uuid: string, canonical: Bytes, kind: string, writes: nat, d': Disk, outcome: Outcome)
    requires Inv(d, uuid) && Admit(d, uuid, canonical, kind, writes, d', outcome)
    ensures writes >= ENOUGH ==> outcome != Crashed
    ensures outcome != Crashed ==>
      var r := Recover(d, 0, uuid).Last(); var digest := Sha256(canonical);
      && (outcome == Refused(TooLarge) <==> |canonical| > MAX_EVENT_BYTES)
      && (outcome.AlreadyAdmitted? <==> |canonical| <= MAX_EVENT_BYTES && digest in r.receipts)
      && (outcome == Admitted <==>
            && |canonical| <= MAX_EVENT_BYTES && digest !in r.receipts
            && |r.events| + 1 <= EVENT_CEILING && Total(r.events) + |canonical| <= BYTES_CEILING)
      && (outcome == Refused(CeilingReached) <==>
            && |canonical| <= MAX_EVENT_BYTES && digest !in r.receipts
            && (|r.events| + 1 > EVENT_CEILING || Total(r.events) + |canonical| > BYTES_CEILING))
      && match outcome
         case Admitted => Admits(r, uuid, canonical, kind, d')
         case AlreadyAdmitted(receipt) => receipt == r.receipts[digest] && d' == r
         case _ => d' == if outcome == Refused(TooLarge) then d else r
  {
    hide Inv, Recover, Admission, Settled, AllGood, Extends, Finishes, Admits, Total, AllDone;
    RecoveredExactly(d, uuid);
    RecoveryCompletes(d, uuid);
    var r := Recover(d, 0, uuid).Last();
    if Sha256(canonical) in r.receipts {
      ReceiptIsOurs(r, uuid, Sha256(canonical));
    }
    assert ContentAddressed(r.events) by { GoodIsAddressed(d, r, uuid); }
    AdmissionEnds(r, uuid, canonical, kind);
  }

  lemma GoodIsAddressed(d: Disk, r: Disk, uuid: string)
    requires Good(d, r, uuid)
    ensures ContentAddressed(r.events)
  {
  }

  // ----- any disk at all -----

  /** On any disk that recovery gets through, also one a crash cannot leave: a receipt bound to another
      repository is refused, and so is an event whose path holds other bytes; neither touches the events, the
      receipts or the index. */
  lemma StrangersAreRefused(d: Disk, uuid: string, canonical: Bytes, kind: string, writes: nat, d': Disk, outcome: Outcome)
    requires Admit(d, uuid, canonical, kind, writes, d', outcome) && |canonical| <= MAX_EVENT_BYTES
    requires Recover(d, 0, uuid).error == None && outcome != Crashed
    ensures var r := Recover(d, 0, uuid).Last(); var digest := Sha256(canonical);
      && (digest in r.receipts ==>
            && d' == r
            && outcome == if r.receipts[digest].repository == uuid then AlreadyAdmitted(r.receipts[digest]) else Refused(DigestMismatch))
      && (digest !in r.receipts && Room(r.events, 1, |canonical|) && digest in r.events && r.events[digest] != canonical ==>
            && outcome == Refused(DigestMismatch)
            && d'.events == r.events && d'.receipts == r.receipts && d'.index == r.index)
  {
    hide Recover, Room;
    var r := Recover(d, 0, uuid).Last();
    var q := RequestOf(r, uuid, canonical, kind);
    TwoWrites(r, q);
  }

  lemma TwoWrites(d: Disk, q: Request)
    requires q.g == |d.journal|
    ensures var s := Written(d, q, 2); s.events == d.events && s.receipts == d.receipts && s.index == d.index
  {
    assert Written(d, q, 1) == Write(d, q, 0) by { assert Written(d, q, 0) == d; }
    assert Written(d, q, 2) == Write(Written(d, q, 1), q, 1);
  }

  /** An entry one turn would act on: unfinished, this repository's and of a known state. */
  predicate Acted(slot: Slot, uuid: string) {
    slot.Entry? && slot.repository == uuid && slot.phase in {Staged, Prepared, Renamed, Indexed, Receipted}
  }

  /** The event is nowhere to be had: staged with other bytes, or neither staged nor in the tree. */
  predicate Lost(d: Disk, e: Slot)
    requires e.Entry?
  {
    if e.digest in d.staging then Sha256(d.staging[e.digest]) != e.digest else e.digest !in d.events
  }

  /** The event's path holds other bytes than those staged for it. */
  predicate Clashes(d: Disk, e: Slot)
    requires e.Entry?
  {
    && e.digest in d.staging && Sha256(d.staging[e.digest]) == e.digest
    && e.digest in d.events && d.events[e.digest] != d.staging[e.digest]
  }

  /** One turn on any disk, also one a crash cannot leave: an entry is rolled back exactly when its event
      was not placed yet and is nowhere to be had; one whose event was placed and is gone is refused, as is
      one whose path is taken; every other one ends done, its event in the tree with a receipt, under an
      index that is the tree's. */
  lemma TurnExact(d: Disk, g: nat, uuid: string)
    requires g < |d.journal| && Acted(d.journal[g], uuid)
    ensures var e, t := d.journal[g], RecoverOne(d, g, uuid); var r := t.Last(); var placing := e.phase == Staged || e.phase == Prepared;
      && (t.error == Some(EventAbsent) <==> !placing && e.digest !in d.events)
      && (t.error == Some(DigestMismatch) <==> placing && Clashes(d, e))
      && (t.error.None? <==> if placing then !Clashes(d, e) else e.digest in d.events)
      && (t.error.Some? ==> r == d)
      && (t.error.None? ==>
           && r.journal == d.journal[g := e.(phase := Done, recovery := Some(if placing && Lost(d, e) then RolledBack else Completed))]
           && (placing && Lost(d, e) ==> r == d.(journal := r.journal, staging := d.staging - {e.digest}))
           && (!(placing && Lost(d, e)) ==>
                && r.events.Keys == d.events.Keys + {e.digest} && e.digest in r.receipts
                && r.index == Some(map digest | digest in r.events :: |r.events[digest]|)))
  {
    var e := d.journal[g];
    if e.digest !in d.staging {
      assert d.staging - {e.digest} == d.staging;
    }
  }
}
