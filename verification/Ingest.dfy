/** Folding a scan of a source into its observation rows (ingest.rs 309-675). */
module Ingest {
  import opened Wrappers

  /** An observation id is the digest of its source, native id and content, an ideal hash here; a row
      adopted from an older identity of the source keeps the id it had. */
  datatype Id = Minted(native: string, digest: string) | Older(name: string)

  datatype Lifecycle = Observed | Absent | Retracted | Rewritten | Superseded | Renamed | Other(name: string)

  /** `reading` is everything the adapter concluded from the content and re-reads; `kept` is
      everything a row keeps from its first reading. */
  datatype Row = Row(id: Id, native: string, digest: string, lifecycle: Lifecycle, observedAt: string,
                     renamedFrom: Option<string>, unit: Option<string>, revision: Option<string>, branch: Option<string>,
                     origin: Option<string>, reading: string, kept: string)

  /** A scanned record: the instant its receipt claims, in milliseconds, when it claims a readable one;
      who signed it; and whether the row made of it obeys the canonical rule. */
  datatype Scanned = Scanned(native: string, digest: string, present: bool, claim: Option<int>, signer: Option<string>,
                             reducerOwned: bool, canonical: bool, unit: string, origin: string,
                             revision: Option<string>, branch: Option<string>, reading: string, kept: string)

  datatype Scan = Scan(records: seq<Scanned>, unitIds: set<string>, presentElsewhere: map<string, string>, available: bool)

  datatype Kind = Moved | Amended | RenamedTo | Withdrawn

  datatype Change = Change(was: Id, becomes: Id, kind: Kind)

  type Rows = map<Id, Row>

  datatype Progress = Progress(rows: Rows, renamedOld: set<Id>, changes: seq<Change>, inserted: nat, skipped: nat)

  /** The proof clock: its text, its instant in milliseconds, and by how many seconds this run declares
      to have moved it. */
  datatype Clock = Clock(text: string, instant: int, offset: int)

  /** What a run reads before it writes: the source's rows, in the order the query answers them, the
      scan, the clock, and the signers trust has revoked. */
  datatype Context = Context(prior: seq<Row>, scan: Scan, clock: Clock, revoked: set<string>)

  // ----- records set aside -----

  const RECEIPT_SKEW_SECONDS := 300

  /** Whole seconds of a span of milliseconds, rounded toward zero. */
  function WholeSeconds(millis: int): int {
    if millis >= 0 then millis / 1000 else -((-millis) / 1000)
  }

  /** `receipt_clock_skew` (time.rs 171-205): the claim is more than five minutes from the clock, a
      bound widened by the run's own move of it. */
  predicate Skewed(clock: Clock, claim: int) {
    var seconds := WholeSeconds(claim - clock.instant);
    var ahead := RECEIPT_SKEW_SECONDS + (if clock.offset < 0 then -clock.offset else 0);
    var behind := RECEIPT_SKEW_SECONDS + (if clock.offset > 0 then clock.offset else 0);
    seconds > ahead || seconds < -behind
  }

  /** Quarantined or withheld before anything is written: its claim is skewed, its signer's receipts
      are withheld, or its row would break the canonical rule. */
  predicate Aside(c: Context, r: Scanned) {
    || (r.claim.Some? && Skewed(c.clock, r.claim.value))
    || (r.signer.Some? && r.signer.value in c.revoked && r.reducerOwned)
    || !r.canonical
  }

  ghost predicate Snapshot(prior: seq<Row>, rows: Rows) {
    && (forall i :: 0 <= i < |prior| ==> prior[i].id in rows && rows[prior[i].id] == prior[i])
    && (forall id :: id in rows ==> rows[id] in prior)
    && (forall i, j :: 0 <= i < j < |prior| ==> prior[i].id != prior[j].id)
  }

  function Natives(records: seq<Scanned>): set<string> {
    set r | r in records :: r.native
  }

  // ----- looking rows up -----

  function ById(prior: seq<Row>, id: Id): Option<Row> {
    if prior == [] then None else if prior[0].id == id then Some(prior[0]) else ById(prior[1..], id)
  }

  predicate SameContent(row: Row, r: Scanned) {
    row.native == r.native && row.digest == r.digest
  }

  /** The first row of this content that is observed, else the first. */
  function ByContent(prior: seq<Row>, r: Scanned, found: Option<Row>): Option<Row> {
    if prior == [] then found
    else
      var better := SameContent(prior[0], r) &&
        (found.None? || (found.value.lifecycle != Observed && prior[0].lifecycle == Observed));
      ByContent(prior[1..], r, if better then Some(prior[0]) else found)
  }

  function Existing(prior: seq<Row>, r: Scanned): Option<Row> {
    var byId := ById(prior, Minted(r.native, r.digest));
    if byId.Some? then byId else ByContent(prior, r, None)
  }

  predicate HasNative(prior: seq<Row>, native: string) {
    exists i :: 0 <= i < |prior| && prior[i].native == native
  }

  predicate Renamable(was: Row, digest: string, present: set<string>, renamedOld: set<Id>) {
    was.lifecycle == Observed && was.digest == digest && was.native !in present && was.id !in renamedOld
  }

  function FindRenamed(prior: seq<Row>, digest: string, present: set<string>, renamedOld: set<Id>): Option<Row> {
    if prior == [] then None
    else if Renamable(prior[0], digest, present, renamedOld) then Some(prior[0])
    else FindRenamed(prior[1..], digest, present, renamedOld)
  }

  // ----- one record -----

  /** A row observed again: identity and content stay, the adapter's conclusions move. */
  function Merge(was: Row, r: Scanned, now: string): Row {
    var read := was.(revision := r.revision, branch := if r.revision != was.revision then r.branch else was.branch,
                     origin := Some(r.origin), reading := r.reading);
    if !r.present && was.lifecycle == Observed then read.(lifecycle := Absent)
    else if r.present && (was.lifecycle == Retracted || was.lifecycle == Absent || was.lifecycle == Rewritten) then
      read.(lifecycle := Observed, observedAt := now)
    else read
  }

  function Fresh(r: Scanned, now: string): Row {
    Row(Minted(r.native, r.digest), r.native, r.digest, if r.present then Observed else Absent, now,
        None, Some(r.unit), r.revision, r.branch, Some(r.origin), r.reading, r.kept)
  }

  /** `update_observation`: a row that is there is rewritten. */
  function Update(rows: Rows, row: Row): Rows {
    if row.id in rows then rows[row.id := row] else rows
  }

  /** `insert_observation`: a row that is there stays. */
  function Insert(rows: Rows, row: Row): Rows {
    if row.id in rows then rows else rows[row.id := row]
  }

  function Reobserve(p: Progress, was: Row, merged: Row): Progress {
    if merged == was then p.(skipped := p.skipped + 1)
    else p.(rows := Update(p.rows, merged),
            changes := p.changes + if merged.lifecycle != was.lifecycle then [Change(merged.id, merged.id, Moved)] else [])
  }

  function Supersede(p: Progress, prior: seq<Row>, native: string, becomes: Id): Progress
    decreases |prior|
  {
    if prior == [] then p
    else
      var was := prior[0];
      var next := if was.native == native && was.lifecycle == Observed then
          p.(rows := Update(p.rows, was.(lifecycle := Superseded)), changes := p.changes + [Change(was.id, becomes, Amended)])
        else p;
      Supersede(next, prior[1..], native, becomes)
  }

  function Add(p: Progress, row: Row): Progress {
    p.(rows := Insert(p.rows, row), inserted := p.inserted + 1)
  }

  function Rename(p: Progress, was: Row, becomes: Id): Progress {
    p.(rows := Update(p.rows, was.(lifecycle := Renamed)), renamedOld := p.renamedOld + {was.id},
       changes := p.changes + [Change(was.id, becomes, RenamedTo)])
  }

  function AddNew(c: Context, p: Progress, r: Scanned): Progress {
    var minted := Fresh(r, c.clock.text);
    if HasNative(c.prior, r.native) then Add(Supersede(p, c.prior, r.native, minted.id), minted)
    else
      match FindRenamed(c.prior, r.digest, Natives(c.scan.records), p.renamedOld)
      case Some(was) => Add(Rename(p, was, minted.id), minted.(renamedFrom := Some(was.native)))
      case None => Add(p, minted)
  }

  function Record(c: Context, p: Progress, r: Scanned): Progress {
    if Aside(c, r) then p
    else match Existing(c.prior, r)
      case Some(was) => Reobserve(p, was, Merge(was, r, c.clock.text))
      case None => AddNew(c, p, r)
  }

  function RecordAll(c: Context, p: Progress, records: seq<Scanned>): Progress
    decreases |records|
  {
    if records == [] then p else RecordAll(c, Record(c, p, records[0]), records[1..])
  }

  // ----- what vanished -----

  /** Every row of this native id was recorded with `origin`. */
  predicate AllOfOrigin(prior: seq<Row>, native: string, origin: string) {
    forall i :: 0 <= i < |prior| && prior[i].native == native ==> prior[i].origin == Some(origin)
  }

  /** Outside this scan but still in the source, as it was recorded. */
  predicate Elsewhere(c: Context, native: string) {
    native in c.scan.presentElsewhere && AllOfOrigin(c.prior, native, c.scan.presentElsewhere[native])
  }

  predicate Vanished(c: Context, renamedOld: set<Id>, was: Row) {
    && was.native !in Natives(c.scan.records) && !Elsewhere(c, was.native)
    && was.lifecycle == Observed && was.id !in renamedOld
  }

  /** Retracted while its unit remains, absent when the unit or the source is gone. */
  function Retired(scan: Scan, was: Row): Row {
    var unitPresent := was.unit.Some? && was.unit.value in scan.unitIds && scan.available;
    was.(lifecycle := if unitPresent then Retracted else Absent)
  }

  function RetireAll(c: Context, p: Progress, prior: seq<Row>): Progress
    decreases |prior|
  {
    if prior == [] then p
    else
      var was := prior[0];
      var next := if Vanished(c, p.renamedOld, was) then
          p.(rows := Update(p.rows, Retired(c.scan, was)), changes := p.changes + [Change(was.id, was.id, Withdrawn)])
        else p;
      RetireAll(c, next, prior[1..])
  }

  function Start(rows: Rows): Progress {
    Progress(rows, {}, [], 0, 0)
  }

  function RunFrom(c: Context, p: Progress): Progress {
    RetireAll(c, RecordAll(c, p, c.scan.records), c.prior)
  }

  /** A run over the rows. */
  function Run(c: Context, rows: Rows): Progress {
    RunFrom(c, Start(rows))
  }

  // ----- the run as the source's loops -----

  class Reconciler {
    var rows: Rows
    var renamedOld: set<Id>
    var changes: seq<Change>
    var inserted: nat
    var skipped: nat

    ghost function View(): Progress
      reads this
    {
      Progress(rows, renamedOld, changes, inserted, skipped)
    }

    constructor (rows: Rows)
      ensures View() == Start(rows)
    {
      this.rows, renamedOld, changes, inserted, skipped := rows, {}, [], 0, 0;
    }

    method UpdateRow(row: Row)
      modifies `rows
      ensures rows == Update(old(rows), row)
    {
      if row.id in rows {
        rows := rows[row.id := row];
      }
    }

    method InsertRow(row: Row)
      modifies `rows, `inserted
      ensures View() == Add(old(View()), row)
    {
      if row.id !in rows {
        rows := rows[row.id := row];
      }
      inserted := inserted + 1;
    }

    method FindExisting(prior: seq<Row>, r: Scanned) returns (found: Option<Row>)
      ensures found == Existing(prior, r)
    {
      found := ById(prior, Minted(r.native, r.digest));
      if found.Some? {
        return;
      }
      for i := 0 to |prior|
        invariant ByContent(prior[i..], r, found) == ByContent(prior, r, None)
      {
        assert prior[i..][1..] == prior[i + 1..];
        if SameContent(prior[i], r) && (found.None? || (found.value.lifecycle != Observed && prior[i].lifecycle == Observed)) {
          found := Some(prior[i]);
        }
      }
    }

    method SupersedeRows(prior: seq<Row>, native: string, becomes: Id)
      modifies `rows, `changes
      ensures View() == Supersede(old(View()), prior, native, becomes)
    {
      for i := 0 to |prior|
        invariant Supersede(View(), prior[i..], native, becomes) == Supersede(old(View()), prior, native, becomes)
      {
        assert prior[i..][1..] == prior[i + 1..];
        if prior[i].native == native && prior[i].lifecycle == Observed {
          UpdateRow(prior[i].(lifecycle := Superseded));
          changes := changes + [Change(prior[i].id, becomes, Amended)];
        }
      }
    }

    method RecordOne(c: Context, r: Scanned)
      modifies this
      ensures View() == Record(c, old(View()), r)
    {
      if r.claim.Some? && Skewed(c.clock, r.claim.value) {
        return;
      }
      var revoked := r.signer.Some? && r.signer.value in c.revoked;
      if revoked && r.reducerOwned {
        return;
      }
      if !r.canonical {
        return;
      }
      var existing := FindExisting(c.prior, r);
      if existing.Some? {
        var merged := Merge(existing.value, r, c.clock.text);
        if merged != existing.value {
          UpdateRow(merged);
          if merged.lifecycle != existing.value.lifecycle {
            changes := changes + [Change(merged.id, merged.id, Moved)];
          }
        } else {
          skipped := skipped + 1;
        }
        return;
      }
      var minted := Fresh(r, c.clock.text);
      if HasNative(c.prior, r.native) {
        SupersedeRows(c.prior, r.native, minted.id);
      } else {
        var was := FindRenamed(c.prior, r.digest, Natives(c.scan.records), renamedOld);
        if was.Some? {
          UpdateRow(was.value.(lifecycle := Renamed));
          renamedOld := renamedOld + {was.value.id};
          changes := changes + [Change(was.value.id, minted.id, RenamedTo)];
          minted := minted.(renamedFrom := Some(was.value.native));
        }
      }
      InsertRow(minted);
    }

    method RetireRows(c: Context)
      modifies this
      ensures View() == RetireAll(c, old(View()), c.prior)
    {
      for i := 0 to |c.prior|
        invariant RetireAll(c, View(), c.prior[i..]) == RetireAll(c, old(View()), c.prior)
      {
        var row := c.prior[i];
        assert c.prior[i..][1..] == c.prior[i + 1..];
        if Vanished(c, renamedOld, row) {
          UpdateRow(Retired(c.scan, row));
          changes := changes + [Change(row.id, row.id, Withdrawn)];
        }
      }
    }

    /** The reconcile loops of `ingest`. */
    method Reconcile(c: Context)
      modifies this
      ensures View() == RunFrom(c, old(View()))
    {
      var records := c.scan.records;
      for i := 0 to |records|
        invariant RecordAll(c, View(), records[i..]) == RecordAll(c, old(View()), records)
      {
        assert records[i..][1..] == records[i + 1..];
        RecordOne(c, records[i]);
      }
      RetireRows(c);
    }
  }
}
