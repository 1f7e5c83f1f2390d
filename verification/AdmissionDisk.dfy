/**
 The codebase admission journal (codebase.rs 874-1194): what is on disk, and the sequence of durable
 writes that an admission and a recovery make. A process can die after any of them.
 */
module AdmissionDisk {
  import opened Wrappers
  import opened Utf8

  const EVENT_CEILING := 10_000
  const BYTES_CEILING := 128 * 1024 * 1024
  const MAX_EVENT_BYTES := 64 * 1024

  /** SHA-256 as an ideal hash: two digests are equal exactly when the hashed bytes are. */
  datatype Digest = Sha256(bytes: Bytes)

  datatype Phase = Staged | Prepared | Renamed | Indexed | Receipted | Done | Unknown(text: string)

  datatype Recovery = Completed | RolledBack

  datatype Slot =
    | Malformed
    | Entry(generation: nat, repository: string, digest: Digest, kind: string, phase: Phase,
            created: Option<bool>, recovery: Option<Recovery>)

  datatype Receipt = Receipt(repository: string, digest: Digest, kind: string, generation: nat, recovered: bool)

  /** A fan-out marker (session.rs 2811-2874, 3298-3307): a file of the journal's directory, of which
      recovery reads the `state`, which Company receipt markers have, and the `repository_uuid`. Its
      state, when it has one, is pending, committed or refused: never one that recovery acts on. */
  datatype MarkerFile = MarkerFile(state: Option<string>, repository: Option<string>)

  type Marker = m: MarkerFile | Text(m.state) !in REPLAYED witness MarkerFile(None, None)

  const REPLAYED := {"staged", "prepared", "renamed", "indexed", "receipted"}

  function Text(field: Option<string>): string {
    match field
    case Some(text) => text
    case None => ""
  }

  /** `.kin/events`, `.kin/local/staging` and one repository's receipts, each by digest; the numbered
      journal entries, generation n at n - 1; and the fan-out markers, which share the journal's
      directory and sort after every number. */
  datatype Disk = Disk(
    staging: map<Digest, Bytes>,
    journal: seq<Slot>,
    markers: seq<Marker>,
    events: map<Digest, Bytes>,
    index: Option<map<Digest, nat>>,
    receipts: map<Digest, Receipt>)

  datatype Error =
    | MalformedEntry | ForeignRepository | UnknownState | EventAbsent | DigestMismatch
    | TooLarge | CeilingReached

  /** The disk before the first and after each durable write, and the error that stopped them. */
  datatype Trace = Trace(states: seq<Disk>, error: Option<Error>) {
    function Last(): Disk
      requires states != []
    {
      states[|states| - 1]
    }
  }

  /** `index_value`: every stored event's digest and size. */
  function IndexValue(events: map<Digest, Bytes>): map<Digest, nat> {
    map digest | digest in events :: |events[digest]|
  }

  /** An immutable `write_atomic`: what is there stays. */
  function Kept(events: map<Digest, Bytes>, digest: Digest, bytes: Bytes): map<Digest, Bytes> {
    if digest in events then events else events[digest := bytes]
  }

  function Unstaged(d: Disk, digest: Digest): Disk {
    d.(staging := d.staging - {digest})
  }

  function WithSlot(d: Disk, g: nat, slot: Slot): Disk
    requires g < |d.journal|
  {
    d.(journal := d.journal[g := slot])
  }

  function Refreshed(d: Disk): Disk {
    d.(index := Some(IndexValue(d.events)))
  }

  function WithReceipt(d: Disk, receipt: Receipt): Disk {
    d.(receipts := d.receipts[receipt.digest := receipt])
  }

  // ----- recovery -----

  /** The end of one entry's recovery: marked done, with what was done about it. */
  function Finish(d: Disk, g: nat, recovery: Recovery): Disk
    requires g < |d.journal| && d.journal[g].Entry?
  {
    WithSlot(d, g, d.journal[g].(phase := Done, recovery := Some(recovery)))
  }

  /** A recovered entry's receipt, written unless there is one. */
  function ReceiptWritten(d: Disk, g: nat): Disk
    requires g < |d.journal| && d.journal[g].Entry?
  {
    var e := d.journal[g];
    if e.digest in d.receipts then d
    else WithReceipt(d, Receipt(e.repository, e.digest, e.kind, e.generation, true))
  }

  /** Completing an entry whose event is in the tree: the index, its receipt, done. */
  function Complete(d: Disk, g: nat): (r: seq<Disk>)
    requires g < |d.journal| && d.journal[g].Entry?
    ensures |r| == 3
  {
    var receipted := ReceiptWritten(Refreshed(d), g);
    [Refreshed(d), receipted, Finish(receipted, g, Completed)]
  }

  /** One turn of the loop of `recover_journal`. */
  function RecoverOne(d: Disk, g: nat, uuid: string): (t: Trace)
    requires g < |d.journal|
    ensures t.states != [] && t.states[0] == d
    ensures forall i :: 0 <= i < |t.states| ==> |t.states[i].journal| == |d.journal|
  {
    match d.journal[g]
    case Malformed => Trace([d], Some(MalformedEntry))
    case Entry(_, repository, digest, _, phase, _, _) =>
      if phase == Done then Trace([d], None)
      else if repository != uuid then Trace([d], Some(ForeignRepository))
      else if phase.Unknown? then Trace([d], Some(UnknownState))
      else if phase == Staged || phase == Prepared then
        if digest in d.staging then
          var bytes := d.staging[digest];
          if Sha256(bytes) != digest then
            Trace([d, Unstaged(d, digest), Finish(Unstaged(d, digest), g, RolledBack)], None)
          else if digest in d.events && d.events[digest] != bytes then
            Trace([d], Some(DigestMismatch))
          else
            var kept := d.(events := Kept(d.events, digest, bytes));
            Trace([d, kept, Unstaged(kept, digest)] + Complete(Unstaged(kept, digest), g), None)
        else if digest !in d.events then
          Trace([d, Finish(d, g, RolledBack)], None)
        else
          Trace([d] + Complete(d, g), None)
      else if digest !in d.events then
        Trace([d], Some(EventAbsent))
      else
        Trace([d] + Complete(d, g), None)
  }

  /** What the loop's tests say of a marker, or `None` when it goes on to the next file. */
  function MarkerRefusal(m: Marker, uuid: string): Option<Error> {
    if Text(m.state) == "done" then None
    else if Text(m.repository) != uuid then Some(ForeignRepository)
    else if Text(m.state) !in REPLAYED then Some(UnknownState)
    else assert false; None
  }

  /** The first refusal among the markers. */
  function MarkersRefusal(markers: seq<Marker>, uuid: string): Option<Error> {
    if markers == [] then None
    else if MarkerRefusal(markers[0], uuid).Some? then MarkerRefusal(markers[0], uuid)
    else MarkersRefusal(markers[1..], uuid)
  }

  /** `recover_journal` from entry `g` on: the numbered entries, then the markers. */
  function Recover(d: Disk, g: nat, uuid: string): (t: Trace)
    requires g <= |d.journal|
    ensures t.states != [] && t.states[0] == d
    decreases |d.journal| - g
  {
    if g == |d.journal| then
      Trace([d], MarkersRefusal(d.markers, uuid))
    else
      var t := RecoverOne(d, g, uuid);
      if t.error.Some? then t else Join(t, Recover(t.Last(), g + 1, uuid))
  }

  function Join(t: Trace, u: Trace): (r: Trace)
    requires t.states != [] && u.states != []
    ensures r.states != [] && r.states[0] == t.states[0]
  {
    Trace(t.states + u.states[1..], u.error)
  }

  // ----- admission -----

  /** What stays fixed through one admission. */
  datatype Request = Request(uuid: string, canonical: Bytes, kind: string, g: nat, created: bool) {
    function Digest(): Digest {
      Sha256(canonical)
    }

    function Slot(phase: Phase): Slot {
      Entry(g + 1, uuid, Digest(), kind, phase, if phase == Staged then None else Some(created), None)
    }
  }

  const WRITES := 10

  /** The i-th durable write of `admit_event`, on a disk that has seen the ones before it. */
  function Write(s: Disk, q: Request, i: nat): Disk
    requires i < WRITES && (i > 1 ==> q.g < |s.journal|)
  {
    match i
    case 0 => s.(staging := s.staging[q.Digest() := q.canonical])
    case 1 => s.(journal := s.journal + [q.Slot(Staged)])
    case 2 => s.(events := Kept(s.events, q.Digest(), q.canonical))
    case 3 => Unstaged(s, q.Digest())
    case 4 => WithSlot(s, q.g, q.Slot(Renamed))
    case 5 => Refreshed(s)
    case 6 => WithSlot(s, q.g, q.Slot(Indexed))
    case 7 => WithReceipt(s, Receipt(q.uuid, q.Digest(), q.kind, q.g + 1, false))
    case 8 => WithSlot(s, q.g, q.Slot(Receipted))
    case _ => WithSlot(s, q.g, q.Slot(Done))
  }

  /** The disk after the first `i` writes. */
  function Written(d: Disk, q: Request, i: nat): (s: Disk)
    requires q.g == |d.journal| && i <= WRITES
    ensures |s.journal| == if i < 2 then |d.journal| else |d.journal| + 1
  {
    if i == 0 then d else Write(Written(d, q, i - 1), q, i - 1)
  }

  function RequestOf(d: Disk, uuid: string, canonical: Bytes, kind: string): Request {
    Request(uuid, canonical, kind, |d.journal|, Sha256(canonical) !in d.events)
  }

  /** The durable writes of `admit_event` once the journal is recovered, the event is found new and
      the intake ceiling leaves room. An event path that holds other bytes stops it after two. */
  function Admission(d: Disk, uuid: string, canonical: Bytes, kind: string): (t: Trace)
    ensures t.states != [] && t.states[0] == d
  {
    var q := RequestOf(d, uuid, canonical, kind);
    if q.Digest() in d.events && d.events[q.Digest()] != canonical then
      Trace(seq(3, i requires 0 <= i < 3 => Written(d, q, i)), Some(DigestMismatch))
    else
      Trace(seq(WRITES + 1, i requires 0 <= i < WRITES + 1 => Written(d, q, i)), None)
  }

  /** The total size of the stored events. */
  ghost function Total(events: map<Digest, Bytes>): nat {
    if events == map[] then 0
    else var digest :| digest in events; |events[digest]| + Total(events - {digest})
  }

  lemma {:induction false} TotalWithout(events: map<Digest, Bytes>, digest: Digest)
    requires digest in events
    ensures Total(events) == |events[digest]| + Total(events - {digest})
  {
    var first :| first in events && Total(events) == |events[first]| + Total(events - {first});
    if first != digest {
      TotalWithout(events - {first}, digest);
      TotalWithout(events - {digest}, first);
      assert events - {first} - {digest} == events - {digest} - {first};
    }
  }

  lemma TotalKept(events: map<Digest, Bytes>, digest: Digest, bytes: Bytes)
    requires digest !in events
    ensures Total(events[digest := bytes]) == Total(events) + |bytes|
    ensures |events[digest := bytes]| == |events| + 1
  {
    TotalWithout(events[digest := bytes], digest);
    assert events[digest := bytes] - {digest} == events;
  }

  /** `check_intake_ceiling`: whether `incoming` more events of `bytes` bytes stay within both ceilings. */
  ghost predicate Room(events: map<Digest, Bytes>, incoming: nat, bytes: nat) {
    |events| + incoming <= EVENT_CEILING && Total(events) + bytes <= BYTES_CEILING
  }

  datatype Outcome = Admitted | AlreadyAdmitted(receipt: Receipt) | Refused(error: Error) | Crashed

  /** What a trace comes to when the process dies once `writes` durable writes are made. */
  ghost predicate Reaches(t: Trace, writes: nat, d: Disk, outcome: Option<Outcome>)
    requires t.states != []
  {
    if writes < |t.states| - 1 then d == t.states[writes] && outcome == Some(Crashed)
    else d == t.Last() && outcome == match t.error case Some(e) => Some(Refused(e)) case None => None
  }

  /** `admit_event`: recovery first; then nothing for a known event or a full tree; then the writes. */
  ghost predicate Admit(d: Disk, uuid: string, canonical: Bytes, kind: string, writes: nat, d': Disk, outcome: Outcome) {
    var t := Recover(d, 0, uuid);
    var digest := Sha256(canonical);
    if |canonical| > MAX_EVENT_BYTES then d' == d && outcome == Refused(TooLarge)
    else if t.error.Some? || writes < |t.states| - 1 then Reaches(t, writes, d', Some(outcome))
    else
      var r := t.Last();
      var left := writes - (|t.states| - 1);
      if digest in r.receipts then
        d' == r && outcome == if r.receipts[digest].repository == uuid
          then AlreadyAdmitted(r.receipts[digest]) else Refused(DigestMismatch)
      else if !Room(r.events, 1, |canonical|) then d' == r && outcome == Refused(CeilingReached)
      else
        var a := Admission(r, uuid, canonical, kind);
        || Reaches(a, left, d', Some(outcome))
        || (Reaches(a, left, d', None) && outcome == Admitted)
  }
}
