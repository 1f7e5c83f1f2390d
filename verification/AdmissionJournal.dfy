/**
 Crash safety of admission. Every durable write of `admit_event` and of `recover_journal` keeps
 `Inv`, so a process may die after any of them, in recovery too, any number of times; the next
 recovery finishes what was begun, refuses nothing and rolls nothing back.
 */
module AdmissionJournal {
  import opened Wrappers
  import opened Utf8
  import opened AdmissionDisk

  predicate ContentAddressed(files: map<Digest, Bytes>) {
    forall digest :: digest in files ==> files[digest] == digest.bytes
  }

  predicate Fresh(d: Disk) {
    d.index == Some(IndexValue(d.events))
  }

  function Digests(journal: seq<Slot>): (r: seq<Digest>)
    requires forall g :: 0 <= g < |journal| ==> journal[g].Entry?
    ensures |r| == |journal| && forall g :: 0 <= g < |r| ==> r[g] == journal[g].digest
  {
    seq(|journal|, g requires 0 <= g < |journal| => journal[g].digest)
  }

  /** Entry g is of generation g + 1 and this repository, never rolled back, and done unless it is the last. */
  predicate Shape(journal: seq<Slot>, uuid: string) {
    forall g :: 0 <= g < |journal| ==>
      && journal[g].Entry?
      && journal[g].generation == g + 1 && journal[g].repository == uuid && journal[g].recovery != Some(RolledBack)
      && (g < |journal| - 1 ==> journal[g].phase == Done)
  }

  /** Each of these events is in the tree and has its receipt. */
  predicate Covered(digests: seq<Digest>, events: set<Digest>, receipts: set<Digest>) {
    forall g :: 0 <= g < |digests| ==> digests[g] in events && digests[g] in receipts
  }

  /** An entry's receipt names it, and there are no others. */
  predicate ReceiptsOk(receipts: map<Digest, Receipt>, digests: seq<Digest>, uuid: string) {
    && (forall g :: 0 <= g < |digests| && digests[g] in receipts ==> Names(receipts[digests[g]], uuid, digests[g], g + 1))
    && (forall digest :: digest in receipts ==> digest in digests)
  }

  predicate Names(r: Receipt, uuid: string, digest: Digest, generation: nat) {
    r.repository == uuid && r.digest == digest && r.generation == generation
  }

  /** A receipt comes last: its event is in the tree and in the index before it. */
  predicate Backed(receipts: set<Digest>, events: set<Digest>, index: Option<map<Digest, nat>>) {
    forall digest :: digest in receipts ==>
      digest in events && index.Some? && digest in index.value && index.value[digest] == |digest.bytes|
  }

  /** What the last entry's state promises about the rest of the disk. The index cache is the
      tree's, unless an entry that will refresh it is unfinished or nothing was ever admitted. */
  ghost predicate LastOk(d: Disk) {
    if d.journal == [] then d.index == None || Fresh(d)
    else
      var e := d.journal[|d.journal| - 1];
      e.Entry? &&
      match e.phase
      case Staged =>
        && (e.digest in d.staging || e.digest in d.events)
        && (e.digest !in d.events ==> Room(d.events, 1, |e.digest.bytes|))
      case Renamed => e.digest in d.events
      case Indexed => e.digest in d.events && Fresh(d)
      case Receipted => e.digest in d.events && Fresh(d) && e.digest in d.receipts
      case Done => e.digest in d.events && Fresh(d) && e.digest in d.receipts
      case _ => false
  }

  function Earlier<T>(s: seq<T>): seq<T> {
    if s == [] then [] else s[..|s| - 1]
  }

  ghost predicate Inv(d: Disk, uuid: string) {
    && d.markers == [] && Shape(d.journal, uuid)
    && ContentAddressed(d.events) && ContentAddressed(d.staging)
    && Covered(Earlier(Digests(d.journal)), d.events.Keys, d.receipts.Keys)
    && ReceiptsOk(d.receipts, Digests(d.journal), uuid)
    && LastOk(d) && Room(d.events, 0, 0) && Backed(d.receipts.Keys, d.events.Keys, d.index)
  }

  predicate AllDone(d: Disk) {
    forall g :: 0 <= g < |d.journal| ==> d.journal[g].Entry? && d.journal[g].phase == Done
  }

  /** A repository no admission has touched: any content-addressed tree within the ceilings. */
  ghost predicate Initial(d: Disk) {
    && d.markers == [] && d.journal == [] && d.receipts == map[]
    && ContentAddressed(d.events) && ContentAddressed(d.staging) && Room(d.events, 0, 0)
    && (d.index == None || Fresh(d))
  }

  function Rank(phase: Phase): nat {
    match phase
    case Staged => 1
    case Prepared => 1
    case Renamed => 2
    case Indexed => 3
    case Receipted => 4
    case Done => 5
    case Unknown(_) => 0
  }

  ghost predicate Grows<K, V>(m: map<K, V>, m': map<K, V>) {
    forall k :: k in m ==> k in m' && m'[k] == m[k]
  }

  predicate SlotExtends(s: Slot, s': Slot) {
    s == s' || (s.Entry? && s'.Entry? && s.digest == s'.digest && s.repository == s'.repository
                && s.generation == s'.generation && Rank(s.phase) <= Rank(s'.phase))
  }

  predicate JournalGrows(j: seq<Slot>, j': seq<Slot>) {
    |j| <= |j'| && forall g :: 0 <= g < |j| ==> SlotExtends(j[g], j'[g])
  }

  /** What no write takes back: an event's bytes, a receipt, an entry's digest and progress. */
  ghost predicate Extends(d: Disk, d': Disk) {
    Grows(d.events, d'.events) && Grows(d.receipts, d'.receipts) && JournalGrows(d.journal, d'.journal)
  }

  lemma JournalGrowsOn(a: seq<Slot>, b: seq<Slot>, c: seq<Slot>)
    requires JournalGrows(a, b) && JournalGrows(b, c)
    ensures JournalGrows(a, c)
  {
  }

  lemma ExtendsOn(a: Disk, b: Disk, c: Disk)
    requires Extends(a, b) && Extends(b, c)
    ensures Extends(a, c)
  {
  }

  // ----- one write at a time -----

  /** A disk in order, reached from `d0` by writes that took nothing back. */
  ghost predicate Good(d0: Disk, d: Disk, uuid: string) {
    Inv(d, uuid) && Extends(d0, d)
  }

  function LastSlot(d: Disk): Slot
    requires d.journal != []
  {
    d.journal[|d.journal| - 1]
  }

  lemma JournalAdvances(j: seq<Slot>, uuid: string, slot: Slot)
    requires Shape(j, uuid) && j != [] && SlotExtends(j[|j| - 1], slot) && slot.Entry? && slot.recovery != Some(RolledBack)
    ensures Shape(j[|j| - 1 := slot], uuid) && JournalGrows(j, j[|j| - 1 := slot])
    ensures Digests(j[|j| - 1 := slot]) == Digests(j)
  {
  }

  /** Changing only the last entry's progress, to a state the disk already meets. */
  lemma Advance(d0: Disk, d: Disk, uuid: string, slot: Slot)
    requires Good(d0, d, uuid) && d.journal != []
    requires SlotExtends(LastSlot(d), slot) && slot.Entry? && slot.recovery != Some(RolledBack)
    requires LastOk(WithSlot(d, |d.journal| - 1, slot))
    ensures Good(d0, WithSlot(d, |d.journal| - 1, slot), uuid)
  {
    JournalAdvances(d.journal, uuid, slot);
    JournalGrowsOn(d0.journal, d.journal, d.journal[|d.journal| - 1 := slot]);
  }

  /** Refreshing the index spoils nothing. */
  lemma RefreshKeeps(d0: Disk, d: Disk, uuid: string)
    requires Good(d0, d, uuid)
    ensures Good(d0, Refreshed(d), uuid)
  {
  }

  /** A new receipt breaks no promise of the last entry's. */
  lemma LastOkStays(d: Disk, r: Receipt)
    requires LastOk(d)
    ensures LastOk(WithReceipt(d, r))
  {
  }

  lemma SameNames(r: Receipt, uuid: string, digest: Digest, generation: nat)
    requires Names(r, uuid, digest, generation)
    ensures r.digest == digest
  {
  }

  /** Writing the last entry's receipt where there is none spoils nothing. */
  lemma ReceiptKeeps(d0: Disk, d: Disk, uuid: string, r: Receipt)
    requires Good(d0, d, uuid) && d.journal != [] && LastSlot(d).digest !in d.receipts
    requires Names(r, uuid, LastSlot(d).digest, |d.journal|) && LastSlot(d).digest in d.events && Fresh(d)
    ensures Good(d0, WithReceipt(d, r), uuid)
  {
    var digests := Digests(d.journal);
    MoreBacked(d, r);
    hide Backed, Fresh, LastOk, ReceiptsOk, Shape, ContentAddressed, Room, JournalGrows, Covered, IndexValue, Earlier, Names, Grows;
    SameNames(r, uuid, LastSlot(d).digest, |d.journal|);
    LastIsNew(d, uuid);
    LastOkStays(d, r);
    MoreReceipts(d0.receipts, d.receipts, digests, d.events.Keys, uuid, r);
  }

  lemma MoreBacked(d: Disk, r: Receipt)
    requires Backed(d.receipts.Keys, d.events.Keys, d.index) && r.digest in d.events && Fresh(d) && ContentAddressed(d.events)
    ensures Backed(WithReceipt(d, r).receipts.Keys, d.events.Keys, d.index)
  {
  }

  lemma MoreReceipts(before: map<Digest, Receipt>, receipts: map<Digest, Receipt>, digests: seq<Digest>, events: set<Digest>, uuid: string, r: Receipt)
    requires Grows(before, receipts) && ReceiptsOk(receipts, digests, uuid) && Covered(Earlier(digests), events, receipts.Keys)
    requires digests != [] && digests[|digests| - 1] !in receipts && r.digest == digests[|digests| - 1]
    requires Names(r, uuid, digests[|digests| - 1], |digests|)
    requires forall g :: 0 <= g < |digests| - 1 ==> digests[g] != digests[|digests| - 1]
    ensures var more := receipts[r.digest := r];
      Grows(before, more) && ReceiptsOk(more, digests, uuid) && Covered(Earlier(digests), events, more.Keys)
  {
  }

  lemma CoveredMore(digests: seq<Digest>, events: set<Digest>, receipts: set<Digest>, more: set<Digest>, others: set<Digest>)
    requires Covered(digests, events, receipts) && events <= more && receipts <= others
    ensures Covered(digests, more, others)
  {
  }

  /** An entry with no receipt is the last, and its event was never journaled before. */
  lemma LastIsNew(d: Disk, uuid: string)
    requires Inv(d, uuid) && d.journal != [] && LastSlot(d).digest !in d.receipts
    ensures forall g :: 0 <= g < |d.journal| - 1 ==> Digests(d.journal)[g] != LastSlot(d).digest
  {
  }

  /** Putting the pending event at its content address spoils nothing. */
  lemma RenameKeeps(d0: Disk, d: Disk, uuid: string, digest: Digest)
    requires Good(d0, d, uuid) && d.journal != [] && LastSlot(d).phase == Staged && LastSlot(d).digest == digest
    ensures Good(d0, d.(events := Kept(d.events, digest, digest.bytes)), uuid)
  {
    var digests, kept := Digests(d.journal), Kept(d.events, digest, digest.bytes);
    KeptEvents(d.events, digest);
    hide ReceiptsOk, Shape, JournalGrows, Covered, IndexValue, Earlier, ContentAddressed, Room, Kept;
    CoveredMore(Earlier(digests), d.events.Keys, d.receipts.Keys, kept.Keys, d.receipts.Keys);
    GrowsOn(d0.events, d.events, kept);
  }

  lemma GrowsOn<K, V>(a: map<K, V>, b: map<K, V>, c: map<K, V>)
    requires Grows(a, b) && Grows(b, c)
    ensures Grows(a, c)
  {
  }

  /** An event kept at its digest. */
  lemma KeptEvents(events: map<Digest, Bytes>, digest: Digest)
    requires ContentAddressed(events) && Room(events, 0, 0) && (digest !in events ==> Room(events, 1, |digest.bytes|))
    ensures var kept := Kept(events, digest, digest.bytes);
      && ContentAddressed(kept) && Room(kept, 0, 0) && Grows(events, kept) && digest in kept && events.Keys <= kept.Keys
  {
    if digest !in events {
      TotalKept(events, digest, digest.bytes);
    }
  }

  lemma UnstageKeeps(d0: Disk, d: Disk, uuid: string, digest: Digest)
    requires Good(d0, d, uuid) && digest in d.events
    ensures Good(d0, Unstaged(d, digest), uuid)
  {
  }

  lemma StagingKeeps(d0: Disk, d: Disk, uuid: string, canonical: Bytes)
    requires Good(d0, d, uuid)
    ensures Good(d0, d.(staging := d.staging[Sha256(canonical) := canonical]), uuid)
  {
  }

  /** When every entry is done, every journaled event is in the tree and has its receipt. */
  lemma DoneIsCovered(d: Disk, uuid: string)
    requires Inv(d, uuid) && AllDone(d)
    ensures Covered(Digests(d.journal), d.events.Keys, d.receipts.Keys)
  {
  }

  lemma OpenShape(d: Disk, slot: Slot, uuid: string)
    requires Shape(d.journal, uuid) && AllDone(d)
    requires slot.Entry? && slot.generation == |d.journal| + 1 && slot.repository == uuid && slot.recovery == None
    ensures var journal := d.journal + [slot];
      && Shape(journal, uuid) && JournalGrows(d.journal, journal)
      && Digests(journal) == Digests(d.journal) + [slot.digest] && Earlier(Digests(journal)) == Digests(d.journal)
  {
  }

  lemma OpenReceipts(receipts: map<Digest, Receipt>, digests: seq<Digest>, uuid: string, digest: Digest)
    requires ReceiptsOk(receipts, digests, uuid) && digest !in receipts
    ensures ReceiptsOk(receipts, digests + [digest], uuid)
  {
  }

  /** Opening an entry for a new staged event keeps the invariant: an event with no receipt was
      never journaled. */
  lemma OpenKeeps(d0: Disk, d: Disk, uuid: string, slot: Slot)
    requires Good(d0, d, uuid) && AllDone(d)
    requires slot.Entry? && slot.generation == |d.journal| + 1 && slot.repository == uuid && slot.phase == Staged && slot.recovery == None
    requires slot.digest in d.staging && Room(d.events, 1, |slot.digest.bytes|) && slot.digest !in d.receipts
    ensures Good(d0, d.(journal := d.journal + [slot]), uuid)
  {
    var digests, journal := Digests(d.journal), d.journal + [slot];
    DoneIsCovered(d, uuid);
    hide ContentAddressed, IndexValue, Grows, Covered, ReceiptsOk, Shape, JournalGrows, AllDone, Earlier;
    OpenShape(d, slot, uuid);
    OpenReceipts(d.receipts, digests, uuid, slot.digest);
    JournalGrowsOn(d0.journal, d.journal, journal);
  }

  // ----- recovery -----

  ghost predicate AllGood(d0: Disk, states: seq<Disk>, uuid: string) {
    forall i :: 0 <= i < |states| ==> Good(d0, states[i], uuid)
  }

  lemma AllGoodJoin(d0: Disk, a: seq<Disk>, b: seq<Disk>, uuid: string)
    requires AllGood(d0, a, uuid) && AllGood(d0, b, uuid)
    ensures AllGood(d0, a + b, uuid)
  {
  }

  lemma GoodFrom(d0: Disk, mid: Disk, states: seq<Disk>, uuid: string)
    requires Extends(d0, mid) && AllGood(mid, states, uuid)
    ensures AllGood(d0, states, uuid)
  {
  }

  /** A recovery that left nothing to do. */
  ghost predicate Finished(d: Disk) {
    AllDone(d) && Fresh(d)
  }

  lemma ReceiptWrittenKeeps(d0: Disk, d: Disk, uuid: string, g: nat)
    requires Good(d0, d, uuid) && g == |d.journal| - 1 && LastSlot(d).digest in d.events && Fresh(d)
    ensures Good(d0, ReceiptWritten(d, g), uuid) && LastSlot(d).digest in ReceiptWritten(d, g).receipts
  {
    var e := LastSlot(d);
    if e.digest !in d.receipts {
      ReceiptKeeps(d0, d, uuid, Receipt(e.repository, e.digest, e.kind, e.generation, true));
    }
  }

  lemma FinishKeeps(d0: Disk, d: Disk, uuid: string, g: nat)
    requires Good(d0, d, uuid) && g == |d.journal| - 1 && Fresh(d)
    requires LastSlot(d).digest in d.events && LastSlot(d).digest in d.receipts
    ensures Good(d0, Finish(d, g, Completed), uuid) && Finished(Finish(d, g, Completed))
  {
    Advance(d0, d, uuid, LastSlot(d).(phase := Done, recovery := Some(Completed)));
  }

  lemma CompleteGood(d0: Disk, d: Disk, uuid: string, g: nat)
    requires Good(d0, d, uuid) && g == |d.journal| - 1 && LastSlot(d).digest in d.events
    ensures AllGood(d0, Complete(d, g), uuid) && Finished(Complete(d, g)[2])
    ensures |Complete(d, g)[2].journal| == |d.journal|
  {
    hide Extends, Fresh, AllDone;
    RefreshKeeps(d0, d, uuid);
    ReceiptWrittenKeeps(d0, Refreshed(d), uuid, g);
    FinishKeeps(d0, ReceiptWritten(Refreshed(d), g), uuid, g);
  }

  /** What one turn of the recovery loop comes to. */
  ghost predicate TurnGood(d: Disk, uuid: string, g: nat, t: Trace)
    requires t.states != []
  {
    && t.error == None && AllGood(d, t.states, uuid) && |t.Last().journal| == |d.journal|
    && (if g == |d.journal| - 1 then AllDone(t.Last()) else t.Last() == d)
  }

  lemma ItselfGood(d: Disk, uuid: string)
    requires Inv(d, uuid)
    ensures Good(d, d, uuid)
  {
  }

  /** A staged entry whose staged bytes are there: renamed, unstaged, completed. */
  lemma StagedGood(d: Disk, uuid: string, g: nat, kept: Disk, unstaged: Disk)
    requires Inv(d, uuid) && g == |d.journal| - 1 && LastSlot(d).phase == Staged
    requires kept == d.(events := Kept(d.events, LastSlot(d).digest, LastSlot(d).digest.bytes))
    requires unstaged == Unstaged(kept, LastSlot(d).digest)
    ensures AllGood(d, [d, kept, unstaged] + Complete(unstaged, g), uuid) && Finished(Complete(unstaged, g)[2])
  {
    var digest := LastSlot(d).digest;
    ItselfGood(d, uuid);
    RenameKeeps(d, d, uuid, digest);
    UnstageKeeps(d, kept, uuid, digest);
    CompleteGood(d, unstaged, uuid, g);
    AllGoodJoin(d, [d, kept, unstaged], Complete(unstaged, g), uuid);
  }

  /** An entry whose event is already in the tree: completed. */
  lemma LandedGood(d: Disk, uuid: string, g: nat)
    requires Inv(d, uuid) && g == |d.journal| - 1 && LastSlot(d).digest in d.events
    ensures AllGood(d, [d] + Complete(d, g), uuid) && Finished(Complete(d, g)[2])
  {
    ItselfGood(d, uuid);
    CompleteGood(d, d, uuid, g);
    AllGoodJoin(d, [d], Complete(d, g), uuid);
  }

  /** Which of the two an unfinished entry takes: the other branches of the loop are never reached. */
  lemma TurnTaken(d: Disk, uuid: string, g: nat)
    requires Inv(d, uuid) && g < |d.journal| && d.journal[g].phase != Done
    ensures g == |d.journal| - 1
    ensures var e := LastSlot(d);
      if e.phase == Staged && e.digest in d.staging then
        var kept := d.(events := Kept(d.events, e.digest, e.digest.bytes));
        RecoverOne(d, g, uuid) == Trace([d, kept, Unstaged(kept, e.digest)] + Complete(Unstaged(kept, e.digest), g), None)
      else
        e.digest in d.events && RecoverOne(d, g, uuid) == Trace([d] + Complete(d, g), None)
  {
  }

  lemma TurnIsGood(d: Disk, uuid: string, g: nat)
    requires Inv(d, uuid) && g < |d.journal|
    ensures TurnGood(d, uuid, g, RecoverOne(d, g, uuid))
  {
    if d.journal[g].phase == Done {
      ItselfGood(d, uuid);
    } else {
      var e := LastSlot(d);
      TurnTaken(d, uuid, g);
      if e.phase == Staged && e.digest in d.staging {
        var kept := d.(events := Kept(d.events, e.digest, e.digest.bytes));
        StagedGood(d, uuid, g, kept, Unstaged(kept, e.digest));
      } else {
        LandedGood(d, uuid, g);
      }
    }
  }

  /** Recovery from entry `g` on, its earlier entries done. */
  lemma {:induction false} RecoverGood(d: Disk, uuid: string, g: nat)
    requires Inv(d, uuid) && g <= |d.journal| && (g == |d.journal| ==> AllDone(d))
    ensures var t := Recover(d, g, uuid);
      t.error == None && AllGood(d, t.states, uuid) && AllDone(t.Last())
    decreases |d.journal| - g
  {
    if g == |d.journal| {
      ItselfGood(d, uuid);
    } else {
      TurnIsGood(d, uuid, g);
      RecoverOnwards(d, uuid, g, RecoverOne(d, g, uuid));
    }
  }

  lemma {:induction false} RecoverOnwards(d: Disk, uuid: string, g: nat, t: Trace)
    requires g < |d.journal| && t.states != [] && TurnGood(d, uuid, g, t)
    ensures var u := Join(t, Recover(t.Last(), g + 1, uuid));
      u.error == None && AllGood(d, u.states, uuid) && AllDone(u.Last())
    decreases |d.journal| - g, 0
  {
    hide Inv, Extends, Recover, RecoverOne;
    var mid := t.Last();
    assert Good(d, mid, uuid);
    RecoverGood(mid, uuid, g + 1);
    var u := Recover(mid, g + 1, uuid);
    GoodFrom(d, mid, u.states, uuid);
    AllGoodJoin(d, t.states, u.states[1..], uuid);
    assert Join(t, u).Last() == u.Last();
  }

  /** What a finished recovery leaves: every entry done, every journaled event at its content
      address with its exact bytes and one receipt, and the index cache that of the tree. */
  ghost predicate Settled(d: Disk, uuid: string) {
    && AllDone(d) && (d.journal != [] ==> Fresh(d))
    && (forall g :: 0 <= g < |d.journal| ==>
          var digest := d.journal[g].digest;
          && d.journal[g].recovery != Some(RolledBack)
          && digest in d.events && d.events[digest] == digest.bytes
          && digest in d.receipts && d.receipts[digest].generation == g + 1)
    && (forall digest :: digest in d.receipts ==> exists g :: 0 <= g < |d.journal| && digest == d.journal[g].digest)
    && Room(d.events, 0, 0)
  }

  lemma DoneIsSettled(d: Disk, uuid: string)
    requires Inv(d, uuid) && AllDone(d)
    ensures Settled(d, uuid)
  {
    var digests := Digests(d.journal);
    DoneIsCovered(d, uuid);
    forall digest | digest in d.receipts ensures exists g :: 0 <= g < |d.journal| && digest == d.journal[g].digest {
      var h :| 0 <= h < |digests| && digests[h] == digest;
    }
  }

  /** Recovery from any state a crash can leave refuses nothing and rolls nothing back, and every
      point at which it can itself be cut off is such a state again. */
  lemma RecoveryCompletes(d: Disk, uuid: string)
    requires Inv(d, uuid)
    ensures var t := Recover(d, 0, uuid);
      t.error == None && AllGood(d, t.states, uuid) && Good(d, t.Last(), uuid) && Settled(t.Last(), uuid)
  {
    RecoverGood(d, uuid, 0);
    LastIsGood(d, Recover(d, 0, uuid), uuid);
    DoneIsSettled(Recover(d, 0, uuid).Last(), uuid);
  }

  lemma LastIsGood(d: Disk, t: Trace, uuid: string)
    requires t.states != [] && AllGood(d, t.states, uuid)
    ensures Good(d, t.Last(), uuid)
  {
  }

  /** When nothing is unfinished recovery writes nothing. */
  lemma {:induction false} RecoverDone(d: Disk, uuid: string, g: nat)
    requires AllDone(d) && d.markers == [] && g <= |d.journal|
    ensures Recover(d, g, uuid) == Trace([d], None)
    decreases |d.journal| - g
  {
    if g < |d.journal| {
      RecoverDone(d, uuid, g + 1);
    }
  }

  /** Cut off anywhere, a trace of good states leaves a good state. */
  lemma ReachesGood(d: Disk, uuid: string, t: Trace, writes: nat, d': Disk, outcome: Option<Outcome>)
    requires t.states != [] && t.error == None && AllGood(d, t.states, uuid) && Reaches(t, writes, d', outcome)
    ensures Good(d, d', uuid) && outcome in {None, Some(Crashed)}
    ensures outcome == None ==> d' == t.Last()
  {
  }

  // ----- admission -----

  /** What holds of the disk after `i` writes of an admission, beyond the invariant. */
  ghost predicate Progress(s: Disk, q: Request, i: nat) {
    && |s.journal| == (if i < 2 then q.g else q.g + 1)
    && (i < 2 ==> AllDone(s) && Room(s.events, 1, |q.canonical|))
    && (i == 1 ==> q.Digest() in s.staging)
    && (i >= 2 ==> s.journal[q.g].Entry? && s.journal[q.g].digest == q.Digest()
                   && s.journal[q.g].phase == PhaseAfter(i) && s.journal[q.g].repository == q.uuid
                   && s.journal[q.g].generation == q.g + 1)
    && (if i <= 7 then q.Digest() !in s.receipts else q.Digest() in s.receipts)
    && (i >= 3 ==> q.Digest() in s.events)
    && (i >= 6 ==> Fresh(s))
  }

  function PhaseAfter(i: nat): Phase {
    if i < 5 then Staged else if i < 7 then Renamed else if i < 9 then Indexed else if i == 9 then Receipted else Done
  }

  lemma EarlyWrite(d: Disk, s: Disk, q: Request, i: nat)
    requires i < 4 && Good(d, s, q.uuid) && Progress(s, q, i)
    ensures Good(d, Write(s, q, i), q.uuid) && Progress(Write(s, q, i), q, i + 1)
  {
    hide Inv, Good;
    match i {
      case 0 => StagingKeeps(d, s, q.uuid, q.canonical);
      case 1 => OpenKeeps(d, s, q.uuid, q.Slot(Staged));
      case 2 => RenameKeeps(d, s, q.uuid, q.Digest());
      case 3 => UnstageKeeps(d, s, q.uuid, q.Digest());
    }
  }

  lemma LateWrite(d: Disk, s: Disk, q: Request, i: nat)
    requires 4 <= i < WRITES && Good(d, s, q.uuid) && Progress(s, q, i)
    ensures Good(d, Write(s, q, i), q.uuid) && Progress(Write(s, q, i), q, i + 1)
  {
    if i == 5 {
      RefreshKeeps(d, s, q.uuid);
    } else if i == 7 {
      ReceiptKeeps(d, s, q.uuid, Receipt(q.uuid, q.Digest(), q.kind, q.g + 1, false));
    } else {
      var slot := q.Slot(PhaseAfter(i + 1));
      assert Write(s, q, i) == WithSlot(s, q.g, slot);
      Advance(d, s, q.uuid, slot);
    }
  }

  lemma {:induction false} WrittenGood(d: Disk, q: Request, i: nat)
    requires Inv(d, q.uuid) && q.g == |d.journal| && Progress(d, q, 0) && i <= WRITES
    ensures Good(d, Written(d, q, i), q.uuid) && Progress(Written(d, q, i), q, i)
  {
    hide Inv, Good, Progress, Write;
    if i == 0 {
      ItselfGood(d, q.uuid);
    } else {
      WrittenGood(d, q, i - 1);
      if i - 1 < 4 {
        EarlyWrite(d, Written(d, q, i - 1), q, i - 1);
      } else {
        LateWrite(d, Written(d, q, i - 1), q, i - 1);
      }
    }
  }

  /** The room and the novelty an admission checks before its first write. */
  ghost predicate Admissible(d: Disk, uuid: string, canonical: Bytes) {
    Inv(d, uuid) && AllDone(d) && Sha256(canonical) !in d.receipts && Room(d.events, 1, |canonical|)
  }

  lemma AdmissionGood(d: Disk, uuid: string, canonical: Bytes, kind: string)
    requires Admissible(d, uuid, canonical)
    ensures var t := Admission(d, uuid, canonical, kind);
      && t.error == None && AllGood(d, t.states, uuid) && |t.states| == WRITES + 1
      && Progress(t.Last(), RequestOf(d, uuid, canonical, kind), WRITES)
  {
    var q := RequestOf(d, uuid, canonical, kind);
    forall i | 0 <= i <= WRITES ensures Good(d, Written(d, q, i), uuid) && Progress(Written(d, q, i), q, i) {
      WrittenGood(d, q, i);
    }
  }

  lemma LastDone(d: Disk, uuid: string)
    requires Inv(d, uuid) && d.journal != [] && LastSlot(d).phase == Done
    ensures AllDone(d)
  {
  }

  /** The writes of an admission after a finished recovery, cut off anywhere. */
  lemma AdmissionReaches(d: Disk, uuid: string, canonical: Bytes, kind: string, writes: nat, d': Disk, outcome: Option<Outcome>)
    requires Admissible(d, uuid, canonical) && Reaches(Admission(d, uuid, canonical, kind), writes, d', outcome)
    ensures Good(d, d', uuid) && outcome in {None, Some(Crashed)}
    ensures outcome == None ==> Settled(d', uuid) && Sha256(canonical) in d'.events && Sha256(canonical) in d'.receipts
  {
    var t := Admission(d, uuid, canonical, kind);
    AdmissionGood(d, uuid, canonical, kind);
    ReachesGood(d, uuid, t, writes, d', outcome);
    if outcome == None {
      LastDone(d', uuid);
      DoneIsSettled(d', uuid);
    }
  }

  /** What an answer promises: everything is settled, and the event is in the tree with its receipt. */
  ghost predicate Answers(d': Disk, uuid: string, canonical: Bytes, outcome: Outcome) {
    && (outcome.Refused? ==> outcome.error in {TooLarge, CeilingReached})
    && (outcome == Admitted || outcome.AlreadyAdmitted? || outcome == Refused(CeilingReached) ==> Settled(d', uuid))
    && (outcome == Admitted || outcome.AlreadyAdmitted? ==> Sha256(canonical) in d'.events && Sha256(canonical) in d'.receipts)
  }

  /** One call of `admit_event`, cut off anywhere: it keeps the invariant and takes nothing back. If
      it answers, everything is settled; it refuses only an oversized event or a full tree. */
  lemma AdmitGood(d: Disk, uuid: string, canonical: Bytes, kind: string, writes: nat, d': Disk, outcome: Outcome)
    requires Inv(d, uuid) && Admit(d, uuid, canonical, kind, writes, d', outcome)
    ensures Good(d, d', uuid) && Answers(d', uuid, canonical, outcome)
  {
    if |canonical| > MAX_EVENT_BYTES {
      ItselfGood(d, uuid);
    } else {
      RecoveryCompletes(d, uuid);
      AdmitAfter(d, uuid, canonical, kind, writes, d', outcome, Recover(d, 0, uuid));
    }
  }

  /** A settled receipt is this repository's. */
  lemma ReceiptIsOurs(d: Disk, uuid: string, digest: Digest)
    requires Inv(d, uuid) && Settled(d, uuid) && digest in d.receipts
    ensures d.receipts[digest].repository == uuid && digest in d.events
  {
  }

  lemma AdmitAfter(d: Disk, uuid: string, canonical: Bytes, kind: string, writes: nat, d': Disk, outcome: Outcome, t: Trace)
    requires t.states != [] && t == Recover(d, 0, uuid) && |canonical| <= MAX_EVENT_BYTES
    requires t.error == None && AllGood(d, t.states, uuid) && Good(d, t.Last(), uuid) && Settled(t.Last(), uuid)
    requires Admit(d, uuid, canonical, kind, writes, d', outcome)
    ensures Good(d, d', uuid) && Answers(d', uuid, canonical, outcome)
  {
    hide Inv, Extends, Recover, Admission, Settled, Room, AllGood;
    var r, digest := t.Last(), Sha256(canonical);
    if writes < |t.states| - 1 {
      ReachesGood(d, uuid, t, writes, d', Some(outcome));
    } else if digest in r.receipts {
      ReceiptIsOurs(r, uuid, digest);
    } else if Room(r.events, 1, |canonical|) {
      var left := writes - (|t.states| - 1);
      SettledIsAdmissible(r, uuid, canonical);
      AdmissionReaches(r, uuid, canonical, kind, left, d', if outcome == Admitted then None else Some(outcome));
      ExtendsOn(d, r, d');
    }
  }

  lemma SettledIsAdmissible(d: Disk, uuid: string, canonical: Bytes)
    requires Inv(d, uuid) && Settled(d, uuid) && Sha256(canonical) !in d.receipts && Room(d.events, 1, |canonical|)
    ensures Admissible(d, uuid, canonical)
  {
  }

  // ----- runs -----

  datatype Action = Recovering(writes: nat) | Admitting(canonical: Bytes, kind: string, writes: nat)

  /** One process: a recovery or an admission, dead after `writes` durable writes if it makes more. */
  ghost predicate Step(d: Disk, uuid: string, action: Action, d': Disk) {
    match action
    case Recovering(writes) => exists outcome :: Reaches(Recover(d, 0, uuid), writes, d', outcome)
    case Admitting(canonical, kind, writes) => exists outcome :: Admit(d, uuid, canonical, kind, writes, d', outcome)
  }

  ghost predicate Run(disks: seq<Disk>, uuid: string, actions: seq<Action>) {
    && |disks| == |actions| + 1
    && forall i :: 0 <= i < |actions| ==> Step(disks[i], uuid, actions[i], disks[i + 1])
  }

  lemma StepGood(d: Disk, uuid: string, action: Action, d': Disk)
    requires Inv(d, uuid) && Step(d, uuid, action, d')
    ensures Good(d, d', uuid)
  {
    match action {
      case Recovering(writes) =>
        var outcome :| Reaches(Recover(d, 0, uuid), writes, d', outcome);
        RecoveryCompletes(d, uuid);
        ReachesGood(d, uuid, Recover(d, 0, uuid), writes, d', outcome);
      case Admitting(canonical, kind, writes) =>
        var outcome :| Admit(d, uuid, canonical, kind, writes, d', outcome);
        AdmitGood(d, uuid, canonical, kind, writes, d', outcome);
    }
  }

  lemma {:induction false} RunGood(disks: seq<Disk>, uuid: string, actions: seq<Action>, at: nat)
    requires Run(disks, uuid, actions) && Initial(disks[0]) && at < |disks|
    ensures Good(disks[0], disks[at], uuid)
  {
    if at > 0 {
      RunGood(disks, uuid, actions, at - 1);
      StepGood(disks[at - 1], uuid, actions[at - 1], disks[at]);
      ExtendsOn(disks[0], disks[at - 1], disks[at]);
    }
  }

  /** In every run of admissions and recoveries cut off anywhere, at every point: the invariant
      holds, nothing was taken back, and a recovery left to finish settles everything. */
  lemma RunsAreSafe(disks: seq<Disk>, uuid: string, actions: seq<Action>, at: nat)
    requires Run(disks, uuid, actions) && Initial(disks[0]) && at < |disks|
    ensures Inv(disks[at], uuid) && Extends(disks[0], disks[at])
    ensures var t := Recover(disks[at], 0, uuid); t.error == None && Settled(t.Last(), uuid)
  {
    RunGood(disks, uuid, actions, at);
    RecoveryCompletes(disks[at], uuid);
  }

  /** In every run, at every point, a receipt is there only with its event in the tree and in the index. */
  lemma ReceiptsComeLast(disks: seq<Disk>, uuid: string, actions: seq<Action>, at: nat)
    requires Run(disks, uuid, actions) && Initial(disks[0]) && at < |disks|
    ensures var d := disks[at]; forall digest :: digest in d.receipts ==>
      && digest in d.events && d.events[digest] == digest.bytes
      && d.index.Some? && digest in d.index.value && d.index.value[digest] == |digest.bytes|
  {
    hide Extends, LastOk, Covered, ReceiptsOk, Shape;
    RunGood(disks, uuid, actions, at);
  }

  /** Admitting an event again, once it was, changes nothing and answers with its one receipt. */
  lemma AdmittingAgain(d: Disk, uuid: string, canonical: Bytes, kind: string, writes: nat, d': Disk, outcome: Outcome)
    requires Inv(d, uuid) && AllDone(d) && |canonical| <= MAX_EVENT_BYTES
    requires Sha256(canonical) in d.receipts
    requires Admit(d, uuid, canonical, kind, writes, d', outcome)
    ensures d' == d && outcome == AlreadyAdmitted(d.receipts[Sha256(canonical)])
  {
    RecoverDone(d, uuid, 0);
  }

  // ----- fan-out markers -----

  function WithoutMarkers(d: Disk): Disk {
    d.(markers := [])
  }

  /** A turn of recovery on a numbered entry does not look at the markers. */
  lemma TurnIgnoresMarkers(d: Disk, g: nat, uuid: string)
    requires g < |d.journal|
    ensures var t, u := RecoverOne(d, g, uuid), RecoverOne(WithoutMarkers(d), g, uuid);
      t.error == u.error && WithoutMarkers(t.Last()) == u.Last() && t.Last().markers == d.markers
  {
    hide Complete, IndexValue, Kept;
    if d.journal[g].Entry? {
      var digest := d.journal[g].digest;
      CompletingIgnoresMarkers(d, g);
      if digest in d.staging {
        CompletingIgnoresMarkers(Unstaged(d.(events := Kept(d.events, digest, d.staging[digest])), digest), g);
      }
    }
  }

  lemma CompletingIgnoresMarkers(d: Disk, g: nat)
    requires g < |d.journal| && d.journal[g].Entry?
    ensures Complete(WithoutMarkers(d), g)[2] == WithoutMarkers(Complete(d, g)[2]) && Complete(d, g)[2].markers == d.markers
  {
  }

  /** Recovery does what it does without the markers, and then reads them. */
  lemma {:induction false} MarkersComeLast(d: Disk, uuid: string, g: nat)
    requires g <= |d.journal|
    ensures var u := Recover(WithoutMarkers(d), g, uuid);
      Recover(d, g, uuid).error == if u.error.Some? then u.error else MarkersRefusal(d.markers, uuid)
    decreases |d.journal| - g
  {
    if g < |d.journal| {
      hide RecoverOne;
      TurnIgnoresMarkers(d, g, uuid);
      var t := RecoverOne(d, g, uuid);
      if t.error.None? {
        MarkersComeLast(t.Last(), uuid, g + 1);
      }
    }
  }

  /** A marker recovery does not pass over: it states no state, or another than done. */
  predicate Refusable(m: Marker) {
    m.state != Some("done")
  }

  lemma {:induction false} MarkersRefuseExactly(markers: seq<Marker>, uuid: string)
    ensures MarkersRefusal(markers, uuid).Some? <==> exists i :: 0 <= i < |markers| && Refusable(markers[i])
    ensures MarkersRefusal(markers, uuid).Some? && (forall i :: 0 <= i < |markers| ==> Text(markers[i].repository) != uuid) ==>
      MarkersRefusal(markers, uuid) == Some(ForeignRepository)
  {
    if markers != [] {
      var rest := markers[1..];
      MarkersRefuseExactly(rest, uuid);
      assert forall i :: 0 <= i < |rest| ==> rest[i] == markers[i + 1];
      assert forall i :: 0 < i < |markers| ==> markers[i] == rest[i - 1];
    }
  }

  /** Where only markers stand in the way, recovery refuses exactly when there is one that is not done:
      as foreign, when it carries no identity of this repository, as fan-out markers never do. */
  lemma MarkersRefuse(d: Disk, uuid: string)
    requires Inv(WithoutMarkers(d), uuid)
    ensures Recover(d, 0, uuid).error.Some? <==> exists i :: 0 <= i < |d.markers| && Refusable(d.markers[i])
    ensures Recover(d, 0, uuid).error.Some? && (forall i :: 0 <= i < |d.markers| ==> Text(d.markers[i].repository) != uuid) ==>
      Recover(d, 0, uuid).error == Some(ForeignRepository)
  {
    RecoveryCompletes(WithoutMarkers(d), uuid);
    MarkersComeLast(d, uuid, 0);
    MarkersRefuseExactly(d.markers, uuid);
  }
}
