/** What every run of the reconciler keeps, how it pairs renames, and when a run is a no-op. */
module IngestLaws {
  import opened Wrappers
  import opened Ingest

  /** A minted id tells the native id and content it was minted for. */
  predicate Honest(rows: Rows) {
    forall id :: id in rows ==> rows[id].id == id && (id.Minted? ==> rows[id].native == id.native && rows[id].digest == id.digest)
  }

  predicate UniqueNatives(records: seq<Scanned>) {
    forall i, j :: 0 <= i < j < |records| ==> records[i].native != records[j].native
  }

  // ----- looking up -----

  lemma {:induction false} ByIdFound(prior: seq<Row>, id: Id)
    ensures ById(prior, id).Some? ==> ById(prior, id).value in prior && ById(prior, id).value.id == id
    ensures ById(prior, id).None? ==> forall i :: 0 <= i < |prior| ==> prior[i].id != id
  {
    if prior != [] && prior[0].id != id {
      ByIdFound(prior[1..], id);
      assert forall i :: 0 < i < |prior| ==> prior[i] == prior[1..][i - 1];
    }
  }

  lemma {:induction false} ByContentFound(prior: seq<Row>, r: Scanned, found: Option<Row>)
    requires found.Some? ==> SameContent(found.value, r)
    ensures var f := ByContent(prior, r, found);
      && (f.Some? ==> SameContent(f.value, r) && (f.value in prior || f == found))
      && (f.None? ==> found.None? && forall i :: 0 <= i < |prior| ==> !SameContent(prior[i], r))
  {
    if prior != [] {
      var better := SameContent(prior[0], r) &&
        (found.None? || (found.value.lifecycle != Observed && prior[0].lifecycle == Observed));
      ByContentFound(prior[1..], r, if better then Some(prior[0]) else found);
      assert forall i :: 0 < i < |prior| ==> prior[i] == prior[1..][i - 1];
    }
  }

  /** The `k`th row is the one a content stands for: the first observed one of it, or when there is none the
      first one. */
  predicate StandsFor(prior: seq<Row>, r: Scanned, k: nat) {
    && k < |prior| && SameContent(prior[k], r)
    && (forall i :: 0 <= i < k && SameContent(prior[i], r) ==> prior[k].lifecycle == Observed && prior[i].lifecycle != Observed)
    && (prior[k].lifecycle != Observed ==> forall i :: 0 <= i < |prior| && SameContent(prior[i], r) ==> prior[i].lifecycle != Observed)
  }

  lemma {:induction false} ByContentFrom(prior: seq<Row>, r: Scanned, found: Option<Row>, k: nat)
    requires found.Some? ==> found.value.lifecycle != Observed
    requires k < |prior| && SameContent(prior[k], r) && (found.Some? ==> prior[k].lifecycle == Observed)
    requires forall i :: 0 <= i < k && SameContent(prior[i], r) ==> prior[k].lifecycle == Observed && prior[i].lifecycle != Observed
    requires prior[k].lifecycle != Observed ==> forall i :: 0 <= i < |prior| && SameContent(prior[i], r) ==> prior[i].lifecycle != Observed
    ensures ByContent(prior, r, found) == Some(prior[k])
  {
    var tail := prior[1..];
    var better := SameContent(prior[0], r) &&
      (found.None? || (found.value.lifecycle != Observed && prior[0].lifecycle == Observed));
    assert forall i :: 0 <= i < |tail| ==> tail[i] == prior[i + 1];
    if k == 0 {
      ByContentKeeps(tail, r, prior[0]);
    } else {
      ByContentFrom(tail, r, if better then Some(prior[0]) else found, k - 1);
    }
  }

  lemma {:induction false} ByContentKeeps(prior: seq<Row>, r: Scanned, found: Row)
    requires found.lifecycle == Observed || forall i :: 0 <= i < |prior| && SameContent(prior[i], r) ==> prior[i].lifecycle != Observed
    ensures ByContent(prior, r, Some(found)) == Some(found)
  {
    if prior != [] {
      assert forall i :: 0 <= i < |prior[1..]| ==> prior[1..][i] == prior[i + 1];
      ByContentKeeps(prior[1..], r, found);
    }
  }

  /** A row that kept an older id is found by its content. */
  lemma ExistingByContent(prior: seq<Row>, r: Scanned, k: nat)
    requires StandsFor(prior, r, k) && forall i :: 0 <= i < |prior| ==> prior[i].id != Minted(r.native, r.digest)
    ensures Existing(prior, r) == Some(prior[k])
  {
    ByIdFound(prior, Minted(r.native, r.digest));
    ByContentFrom(prior, r, None, k);
  }

  lemma ExistingFound(prior: seq<Row>, r: Scanned, rows: Rows)
    requires Snapshot(prior, rows) && Honest(rows)
    ensures Existing(prior, r).Some? ==> Existing(prior, r).value in prior && SameContent(Existing(prior, r).value, r)
    ensures Existing(prior, r).None? ==>
      Minted(r.native, r.digest) !in rows && forall i :: 0 <= i < |prior| ==> !SameContent(prior[i], r)
  {
    ByIdFound(prior, Minted(r.native, r.digest));
    ByContentFound(prior, r, None);
  }

  lemma {:induction false} RenamedFound(prior: seq<Row>, digest: string, present: set<string>, renamedOld: set<Id>)
    ensures var f := FindRenamed(prior, digest, present, renamedOld);
      f.Some? ==> f.value in prior && Renamable(f.value, digest, present, renamedOld)
  {
    if prior != [] && !Renamable(prior[0], digest, present, renamedOld) {
      RenamedFound(prior[1..], digest, present, renamedOld);
    }
  }

  // ----- no row is lost, no end is undone -----

  predicate Terminal(l: Lifecycle) {
    l == Superseded || l == Renamed
  }

  /** The moves a run may make. */
  predicate Move(a: Lifecycle, b: Lifecycle) {
    || a == b
    || (a == Observed && (b == Absent || b == Retracted || b == Superseded || b == Renamed))
    || (b == Observed && (a == Retracted || a == Absent || a == Rewritten))
  }

  /** What a run may make of a row. */
  predicate Keeps(a: Row, b: Row) {
    && b.id == a.id && b.native == a.native && b.digest == a.digest && b.kept == a.kept && b.unit == a.unit
    && b.renamedFrom == a.renamedFrom && Move(a.lifecycle, b.lifecycle)
  }

  predicate Safe(prior: seq<Row>, rows: Rows) {
    forall i :: 0 <= i < |prior| ==> prior[i].id in rows && Keeps(prior[i], rows[prior[i].id])
  }

  predicate DistinctIds(prior: seq<Row>) {
    forall i, j :: 0 <= i < j < |prior| ==> prior[i].id != prior[j].id
  }

  lemma UpdateSafe(prior: seq<Row>, rows: Rows, was: Row, row: Row)
    requires DistinctIds(prior) && Safe(prior, rows) && was in prior && Keeps(was, row)
    ensures Safe(prior, Update(rows, row))
  {
  }

  lemma {:induction false} SupersedeSafe(all: seq<Row>, p: Progress, prior: seq<Row>, native: string, becomes: Id)
    requires DistinctIds(all) && Safe(all, p.rows) && forall i :: 0 <= i < |prior| ==> prior[i] in all
    ensures Safe(all, Supersede(p, prior, native, becomes).rows)
    decreases |prior|
  {
    if prior != [] {
      var was := prior[0];
      if was.native == native && was.lifecycle == Observed {
        var row := was.(lifecycle := Superseded);
        UpdateSafe(all, p.rows, was, row);
        SupersedeSafe(all, p.(rows := Update(p.rows, row), changes := p.changes + [Change(was.id, becomes, Amended)]), prior[1..], native, becomes);
      } else {
        SupersedeSafe(all, p, prior[1..], native, becomes);
      }
    }
  }

  lemma AddSafe(prior: seq<Row>, p: Progress, row: Row)
    requires Safe(prior, p.rows)
    ensures Safe(prior, Add(p, row).rows)
  {
  }

  lemma AddNewSafe(c: Context, p: Progress, r: Scanned)
    requires DistinctIds(c.prior) && Safe(c.prior, p.rows)
    ensures Safe(c.prior, AddNew(c, p, r).rows)
  {
    var minted := Fresh(r, c.clock.text);
    if HasNative(c.prior, r.native) {
      SupersedeSafe(c.prior, p, c.prior, r.native, minted.id);
      AddSafe(c.prior, Supersede(p, c.prior, r.native, minted.id), minted);
    } else {
      RenamedFound(c.prior, r.digest, Natives(c.scan.records), p.renamedOld);
      match FindRenamed(c.prior, r.digest, Natives(c.scan.records), p.renamedOld)
      case Some(was) =>
        UpdateSafe(c.prior, p.rows, was, was.(lifecycle := Renamed));
        AddSafe(c.prior, Rename(p, was, minted.id), minted.(renamedFrom := Some(was.native)));
      case None => AddSafe(c.prior, p, minted);
    }
  }

  lemma RecordSafe(c: Context, p: Progress, r: Scanned, rows: Rows)
    requires Snapshot(c.prior, rows) && Honest(rows) && Safe(c.prior, p.rows)
    ensures Safe(c.prior, Record(c, p, r).rows)
  {
    ExistingFound(c.prior, r, rows);
    if !Aside(c, r) {
      match Existing(c.prior, r)
      case Some(was) => UpdateSafe(c.prior, p.rows, was, Merge(was, r, c.clock.text));
      case None => AddNewSafe(c, p, r);
    }
  }

  lemma {:induction false} RecordsSafe(c: Context, p: Progress, records: seq<Scanned>, rows: Rows)
    requires Snapshot(c.prior, rows) && Honest(rows) && Safe(c.prior, p.rows)
    ensures Safe(c.prior, RecordAll(c, p, records).rows)
    decreases |records|
  {
    if records != [] {
      RecordSafe(c, p, records[0], rows);
      RecordsSafe(c, Record(c, p, records[0]), records[1..], rows);
    }
  }

  lemma {:induction false} RetireSafe(c: Context, p: Progress, prior: seq<Row>)
    requires DistinctIds(c.prior) && Safe(c.prior, p.rows) && forall i :: 0 <= i < |prior| ==> prior[i] in c.prior
    ensures Safe(c.prior, RetireAll(c, p, prior).rows)
    decreases |prior|
  {
    if prior != [] {
      var was := prior[0];
      if Vanished(c, p.renamedOld, was) {
        var row := Retired(c.scan, was);
        UpdateSafe(c.prior, p.rows, was, row);
        RetireSafe(c, p.(rows := Update(p.rows, row), changes := p.changes + [Change(was.id, was.id, Withdrawn)]), prior[1..]);
      } else {
        RetireSafe(c, p, prior[1..]);
      }
    }
  }

  /** A run deletes no row, never changes what a row identifies, and makes only the moves above: a
      superseded or renamed row stays so. It asks nothing of the scan. */
  lemma RunKeepsRows(c: Context, rows: Rows, id: Id)
    requires Snapshot(c.prior, rows) && Honest(rows) && id in rows
    ensures id in Run(c, rows).rows && Keeps(rows[id], Run(c, rows).rows[id])
    ensures Terminal(rows[id].lifecycle) ==> Run(c, rows).rows[id].lifecycle == rows[id].lifecycle
  {
    hide RecordAll, RetireAll;
    assert Safe(c.prior, rows);
    RecordsSafe(c, Start(rows), c.scan.records, rows);
    RetireSafe(c, RecordAll(c, Start(rows), c.scan.records), c.prior);
    var i :| 0 <= i < |c.prior| && c.prior[i] == rows[id];
  }

  // ----- what one record writes -----

  lemma {:induction false} SupersedeWrites(p: Progress, prior: seq<Row>, native: string, becomes: Id, rows: Rows, id: Id)
    requires forall i :: 0 <= i < |prior| ==> prior[i].id in rows && rows[prior[i].id] == prior[i]
    ensures var q := Supersede(p, prior, native, becomes);
      && q.rows.Keys == p.rows.Keys && q.renamedOld == p.renamedOld && q.inserted == p.inserted
      && (id in p.rows && q.rows[id] != p.rows[id] ==> id in rows && rows[id].native == native)
    decreases |prior|
  {
    if prior != [] {
      var was := prior[0];
      var next := if was.native == native && was.lifecycle == Observed then
          p.(rows := Update(p.rows, was.(lifecycle := Superseded)), changes := p.changes + [Change(was.id, becomes, Amended)])
        else p;
      SupersedeWrites(next, prior[1..], native, becomes, rows, id);
    }
  }

  lemma {:induction false} SupersedeChanges(p: Progress, prior: seq<Row>, native: string, becomes: Id)
    ensures p.changes <= Supersede(p, prior, native, becomes).changes
    ensures forall i :: |p.changes| <= i < |Supersede(p, prior, native, becomes).changes| ==>
      Supersede(p, prior, native, becomes).changes[i].kind == Amended
    decreases |prior|
  {
    if prior != [] {
      var was := prior[0];
      var next := if was.native == native && was.lifecycle == Observed then
          p.(rows := Update(p.rows, was.(lifecycle := Superseded)), changes := p.changes + [Change(was.id, becomes, Amended)])
        else p;
      SupersedeChanges(next, prior[1..], native, becomes);
    }
  }

  /** The row a record takes as its old name. */
  function OldName(c: Context, p: Progress, r: Scanned): Option<Row> {
    if Aside(c, r) || Existing(c.prior, r).Some? || HasNative(c.prior, r.native) then None
    else FindRenamed(c.prior, r.digest, Natives(c.scan.records), p.renamedOld)
  }

  lemma OldNameFound(c: Context, p: Progress, r: Scanned, rows: Rows)
    requires Snapshot(c.prior, rows)
    ensures OldName(c, p, r).Some? ==> var was := OldName(c, p, r).value;
      was.id in rows && rows[was.id] == was && Renamable(was, r.digest, Natives(c.scan.records), p.renamedOld)
  {
    RenamedFound(c.prior, r.digest, Natives(c.scan.records), p.renamedOld);
  }

  /** What a record wrote: over rows of its native id and the row it takes as its old name. */
  predicate Wrote(p: Progress, q: Progress, r: Scanned, was: Option<Row>, rows: Rows, id: Id) {
    && p.rows.Keys <= q.rows.Keys <= p.rows.Keys + {Minted(r.native, r.digest)}
    && q.renamedOld == p.renamedOld + (if was.Some? then {was.value.id} else {})
    && (id in p.rows && q.rows[id] != p.rows[id] ==>
         id in rows && (rows[id].native == r.native || (was == Some(rows[id]) && q.rows[id] == rows[id].(lifecycle := Renamed))))
    && (was.Some? && id == was.value.id && id in p.rows ==> q.rows[id] == was.value.(lifecycle := Renamed))
  }

  lemma AddNewWrites(c: Context, p: Progress, r: Scanned, rows: Rows, id: Id)
    requires Snapshot(c.prior, rows) && !Aside(c, r) && Existing(c.prior, r).None?
    ensures Wrote(p, AddNew(c, p, r), r, OldName(c, p, r), rows, id)
  {
    OldNameFound(c, p, r, rows);
    SupersedeWrites(p, c.prior, r.native, Minted(r.native, r.digest), rows, id);
  }

  lemma RecordWrites(c: Context, p: Progress, r: Scanned, rows: Rows, id: Id)
    requires Snapshot(c.prior, rows) && Honest(rows)
    ensures Wrote(p, Record(c, p, r), r, OldName(c, p, r), rows, id)
  {
    if Aside(c, r) || Existing(c.prior, r).Some? {
      ExistingFound(c.prior, r, rows);
    } else {
      AddNewWrites(c, p, r, rows, id);
    }
  }

  // ----- where a run ends up -----

  /** The row says what the record says. */
  predicate UpToDate(row: Row, r: Scanned) {
    && row.revision == r.revision && row.origin == Some(r.origin) && row.reading == r.reading
    && !(!r.present && row.lifecycle == Observed)
    && !(r.present && (row.lifecycle == Retracted || row.lifecycle == Absent || row.lifecycle == Rewritten))
  }

  predicate Current(c: Context, rows: Rows, r: Scanned) {
    Aside(c, r) || AlreadyThere(rows, r)
  }

  /** The record has nothing to change in these rows. */
  predicate AlreadyThere(rows: Rows, r: Scanned) {
    Minted(r.native, r.digest) in rows && UpToDate(rows[Minted(r.native, r.digest)], r)
  }

  /** Every row has the id its content mints. */
  predicate NoLegacy(rows: Rows) {
    forall id :: id in rows ==> rows[id].id == id && id == Minted(rows[id].native, rows[id].digest)
  }

  lemma ExistingMinted(prior: seq<Row>, r: Scanned, rows: Rows)
    requires Snapshot(prior, rows) && NoLegacy(rows)
    ensures Existing(prior, r) == if Minted(r.native, r.digest) in rows then Some(rows[Minted(r.native, r.digest)]) else None
  {
    ExistingFound(prior, r, rows);
    if Minted(r.native, r.digest) in rows {
      ByIdFound(prior, Minted(r.native, r.digest));
    }
  }

  /** A row outside the scan is as it was, or renamed. */
  predicate AsideFrom(rows: Rows, p: Progress, id: Id)
    requires id in rows && id in p.rows
  {
    if id in p.renamedOld then rows[id].lifecycle == Observed && p.rows[id] == rows[id].(lifecycle := Renamed)
    else p.rows[id] == rows[id]
  }

  /** Where the run stands with `records` still to come. */
  ghost predicate Standing(c: Context, rows: Rows, p: Progress, records: seq<Scanned>) {
    && rows.Keys <= p.rows.Keys
    && (forall id :: id in p.rows && id !in rows ==> id.Minted? && id.native in Natives(c.scan.records) && id.native !in Natives(records))
    && (forall id :: id in rows && rows[id].native in Natives(records) ==> p.rows[id] == rows[id])
    && (forall id :: id in rows && rows[id].native !in Natives(c.scan.records) ==> AsideFrom(rows, p, id))
    && (forall id :: id in p.renamedOld ==> id in rows && rows[id].native !in Natives(c.scan.records))
  }

  lemma NativesStep(r: Scanned, rest: seq<Scanned>)
    ensures Natives([r] + rest) == {r.native} + Natives(rest)
  {
  }

  lemma StandingNext(c: Context, rows: Rows, p: Progress, r: Scanned, rest: seq<Scanned>)
    requires Snapshot(c.prior, rows) && Honest(rows) && Standing(c, rows, p, [r] + rest)
    requires r.native in Natives(c.scan.records) && Natives(rest) <= Natives(c.scan.records) && r.native !in Natives(rest)
    ensures Standing(c, rows, Record(c, p, r), rest)
  {
    hide Record, OldName, Wrote, AsideFrom;
    var q := Record(c, p, r);
    NativesStep(r, rest);
    OldNameFound(c, p, r, rows);
    RecordWrites(c, p, r, rows, Minted(r.native, r.digest));
    WroteKeys(p, q, r, OldName(c, p, r), rows, Minted(r.native, r.digest));
    forall id | id in rows && rows[id].native in Natives(rest) ensures q.rows[id] == rows[id] {
      RecordWrites(c, p, r, rows, id);
      OtherStays(p, q, r, OldName(c, p, r), rows, id);
    }
    forall id | id in rows && rows[id].native !in Natives(c.scan.records) ensures AsideFrom(rows, q, id) {
      RecordWrites(c, p, r, rows, id);
      AsideStays(rows, p, q, r, OldName(c, p, r), id);
    }
  }

  lemma WroteKeys(p: Progress, q: Progress, r: Scanned, was: Option<Row>, rows: Rows, id: Id)
    requires Wrote(p, q, r, was, rows, id)
    ensures p.rows.Keys <= q.rows.Keys <= p.rows.Keys + {Minted(r.native, r.digest)}
    ensures q.renamedOld == p.renamedOld + (if was.Some? then {was.value.id} else {})
  {
  }

  lemma OtherStays(p: Progress, q: Progress, r: Scanned, was: Option<Row>, rows: Rows, id: Id)
    requires Wrote(p, q, r, was, rows, id) && id in rows && id in p.rows && rows[id].native != r.native
    requires was != Some(rows[id])
    ensures id in q.rows && q.rows[id] == p.rows[id]
  {
  }

  /** A row outside the scan, after one record: as it was, or renamed. */
  lemma AsideStays(rows: Rows, p: Progress, q: Progress, r: Scanned, was: Option<Row>, id: Id)
    requires Wrote(p, q, r, was, rows, id) && id in rows && id in p.rows && AsideFrom(rows, p, id) && rows[id].native != r.native
    requires was.Some? ==> was.value.id in rows && rows[was.value.id] == was.value && was.value.lifecycle == Observed && was.value.id !in p.renamedOld
    requires rows[id].id == id
    ensures id in q.rows && AsideFrom(rows, q, id)
  {
  }

  lemma {:induction false} StandingAfter(c: Context, rows: Rows, p: Progress, records: seq<Scanned>)
    requires Snapshot(c.prior, rows) && Honest(rows) && Standing(c, rows, p, records)
    requires UniqueNatives(records) && Natives(records) <= Natives(c.scan.records)
    ensures Standing(c, rows, RecordAll(c, p, records), [])
    decreases |records|
  {
    if records != [] {
      UniqueStep(records);
      NativesStep(records[0], records[1..]);
      StandingNext(c, rows, p, records[0], records[1..]);
      StandingAfter(c, rows, Record(c, p, records[0]), records[1..]);
    }
  }

  lemma UniqueStep(records: seq<Scanned>)
    requires UniqueNatives(records) && records != []
    ensures UniqueNatives(records[1..]) && records[0].native !in Natives(records[1..]) && records == [records[0]] + records[1..]
  {
  }

  /** A record is up to date once it was read. */
  lemma RecordIsCurrent(c: Context, rows: Rows, p: Progress, r: Scanned, rest: seq<Scanned>)
    requires Snapshot(c.prior, rows) && NoLegacy(rows) && Standing(c, rows, p, [r] + rest)
    ensures Current(c, Record(c, p, r).rows, r)
  {
    NativesStep(r, rest);
    ExistingMinted(c.prior, r, rows);
    if !Aside(c, r) && Existing(c.prior, r).None? {
      MintedIsNew(c, p, r, rows);
    }
  }

  lemma MintedIsNew(c: Context, p: Progress, r: Scanned, rows: Rows)
    requires Snapshot(c.prior, rows) && !Aside(c, r) && Existing(c.prior, r).None? && Minted(r.native, r.digest) !in p.rows
    ensures var id := Minted(r.native, r.digest); var q := Record(c, p, r); var was := OldName(c, p, r);
      id in q.rows && q.rows[id] == Fresh(r, c.clock.text).(renamedFrom := if was.Some? then Some(was.value.native) else None)
  {
    SupersedeWrites(p, c.prior, r.native, Minted(r.native, r.digest), rows, Minted(r.native, r.digest));
    OldNameFound(c, p, r, rows);
  }

  /** Later records leave a row of another native id of the scan alone. */
  lemma {:induction false} OthersLeave(c: Context, rows: Rows, p: Progress, records: seq<Scanned>, id: Id)
    requires Snapshot(c.prior, rows) && Honest(rows) && id in p.rows && id.Minted?
    requires id.native in Natives(c.scan.records) && id.native !in Natives(records)
    ensures id in RecordAll(c, p, records).rows && RecordAll(c, p, records).rows[id] == p.rows[id]
    decreases |records|
  {
    if records != [] {
      assert records == [records[0]] + records[1..];
      NativesStep(records[0], records[1..]);
      RecordWrites(c, p, records[0], rows, id);
      OldNameFound(c, p, records[0], rows);
      OthersLeave(c, rows, Record(c, p, records[0]), records[1..], id);
    }
  }

  lemma {:induction false} RecordsAreCurrent(c: Context, rows: Rows, p: Progress, records: seq<Scanned>, r: Scanned)
    requires Snapshot(c.prior, rows) && NoLegacy(rows) && Standing(c, rows, p, records)
    requires UniqueNatives(records) && Natives(records) <= Natives(c.scan.records) && r in records
    ensures Current(c, RecordAll(c, p, records).rows, r)
    decreases |records|
  {
    UniqueStep(records);
    NativesStep(records[0], records[1..]);
    var next := Record(c, p, records[0]);
    StandingNext(c, rows, p, records[0], records[1..]);
    if r == records[0] {
      RecordIsCurrent(c, rows, p, r, records[1..]);
      if !Aside(c, r) {
        OthersLeave(c, rows, next, records[1..], Minted(r.native, r.digest));
      }
    } else {
      RecordsAreCurrent(c, rows, next, records[1..], r);
    }
  }

  lemma {:induction false} RetireWrites(c: Context, p: Progress, prior: seq<Row>, id: Id)
    requires DistinctIds(prior)
    ensures var q := RetireAll(c, p, prior);
      && q.rows.Keys == p.rows.Keys && q.renamedOld == p.renamedOld && q.inserted == p.inserted
      && ((forall i :: 0 <= i < |prior| ==> prior[i].id != id) && id in p.rows ==> q.rows[id] == p.rows[id])
      && (forall i :: 0 <= i < |prior| && prior[i].id == id && id in p.rows ==>
           q.rows[id] == if Vanished(c, p.renamedOld, prior[i]) then Retired(c.scan, prior[i]) else p.rows[id])
    decreases |prior|
  {
    if prior != [] {
      var was, tail := prior[0], prior[1..];
      var next := if Vanished(c, p.renamedOld, was) then
          p.(rows := Update(p.rows, Retired(c.scan, was)), changes := p.changes + [Change(was.id, was.id, Withdrawn)])
        else p;
      assert forall i :: 0 <= i < |tail| ==> tail[i] == prior[i + 1];
      assert forall i :: 0 < i < |prior| ==> prior[i] == tail[i - 1];
      RetireWrites(c, next, tail, id);
    }
  }

  lemma RetireRow(c: Context, p: Progress, rows: Rows, id: Id)
    requires Snapshot(c.prior, rows) && Honest(rows) && id in p.rows
    ensures var q := RetireAll(c, p, c.prior);
      id in q.rows && q.rows[id] == if id in rows && Vanished(c, p.renamedOld, rows[id]) then Retired(c.scan, rows[id]) else p.rows[id]
  {
    RetireWrites(c, p, c.prior, id);
    if id in rows {
      var i :| 0 <= i < |c.prior| && c.prior[i] == rows[id];
    }
  }

  lemma StandingStart(c: Context, rows: Rows)
    ensures Standing(c, rows, Start(rows), c.scan.records)
  {
  }

  /** Rows of native ids the scan neither holds nor places elsewhere are not observed. */
  ghost predicate Withdrew(scan: Scan, rows: Rows) {
    forall id :: id in rows && rows[id].lifecycle == Observed && rows[id].native !in Natives(scan.records) ==>
      rows[id].native in scan.presentElsewhere &&
      forall other :: other in rows && rows[other].native == rows[id].native ==>
        rows[other].origin == Some(scan.presentElsewhere[rows[id].native])
  }

  /** What a run ends with. */
  lemma RunEnds(c: Context, rows: Rows, id: Id)
    requires Snapshot(c.prior, rows) && NoLegacy(rows) && UniqueNatives(c.scan.records) && id in Run(c, rows).rows
    ensures var q := Run(c, rows).rows;
      && q[id].id == id && id == Minted(q[id].native, q[id].digest)
      && (id !in rows ==> q[id].native in Natives(c.scan.records))
      && (id in rows && q[id].native !in Natives(c.scan.records) ==>
           q[id].origin == rows[id].origin && (q[id].lifecycle == Observed ==> rows[id].lifecycle == Observed && Elsewhere(c, rows[id].native)))
  {
    hide RecordAll, RetireAll;
    var records := c.scan.records;
    var p := RecordAll(c, Start(rows), records);
    StandingStart(c, rows);
    StandingAfter(c, rows, Start(rows), records);
    RetireWrites(c, p, c.prior, id);
    RetireRow(c, p, rows, id);
    if id in rows {
      RunKeepsRows(c, rows, id);
    } else {
      AddedRow(c, rows, Start(rows), records, id);
    }
  }

  /** A row that was not there before carries the record it was added for. */
  lemma {:induction false} AddedRow(c: Context, rows: Rows, p: Progress, records: seq<Scanned>, id: Id)
    requires Snapshot(c.prior, rows) && Honest(rows) && Standing(c, rows, p, records)
    requires UniqueNatives(records) && Natives(records) <= Natives(c.scan.records)
    requires id in RecordAll(c, p, records).rows && id !in p.rows
    ensures var row := RecordAll(c, p, records).rows[id]; row.id == id && id == Minted(row.native, row.digest)
    decreases |records|
  {
    if records != [] {
      UniqueStep(records);
      NativesStep(records[0], records[1..]);
      var next := Record(c, p, records[0]);
      StandingNext(c, rows, p, records[0], records[1..]);
      RecordWrites(c, p, records[0], rows, id);
      if id in next.rows {
        AddedNow(c, rows, p, records[0], id);
        OthersLeave(c, rows, next, records[1..], id);
      } else {
        AddedRow(c, rows, next, records[1..], id);
      }
    }
  }

  lemma AddedNow(c: Context, rows: Rows, p: Progress, r: Scanned, id: Id)
    requires Snapshot(c.prior, rows) && Honest(rows) && id !in p.rows && id in Record(c, p, r).rows
    ensures id == Minted(r.native, r.digest) && Record(c, p, r).rows[id].id == id
    ensures Record(c, p, r).rows[id].native == r.native && Record(c, p, r).rows[id].digest == r.digest
  {
    RecordWrites(c, p, r, rows, id);
    if !Aside(c, r) {
      if Existing(c.prior, r).None? {
        MintedIsNew(c, p, r, rows);
      }
    }
  }

  /** After a run, every record of the scan is up to date and what vanished is withdrawn. */
  lemma RunSettles(c: Context, rows: Rows)
    requires Snapshot(c.prior, rows) && NoLegacy(rows) && UniqueNatives(c.scan.records)
    ensures var q := Run(c, rows).rows;
      && NoLegacy(q) && Withdrew(c.scan, q)
      && forall r :: r in c.scan.records ==> Current(c, q, r)
  {
    var records := c.scan.records;
    var p, q := RecordAll(c, Start(rows), records), Run(c, rows).rows;
    forall id | id in q ensures q[id].id == id && id == Minted(q[id].native, q[id].digest) {
      RunEnds(c, rows, id);
    }
    forall id | id in q && q[id].lifecycle == Observed && q[id].native !in Natives(records)
      ensures q[id].native in c.scan.presentElsewhere
      ensures forall other :: other in q && q[other].native == q[id].native ==> q[other].origin == Some(c.scan.presentElsewhere[q[id].native])
    {
      RunEnds(c, rows, id);
      forall other | other in q && q[other].native == q[id].native ensures q[other].origin == Some(c.scan.presentElsewhere[q[id].native]) {
        RunEnds(c, rows, other);
        var i :| 0 <= i < |c.prior| && c.prior[i] == rows[other];
      }
    }
    StandingStart(c, rows);
    forall r | r in records ensures Current(c, q, r) {
      RecordsAreCurrent(c, rows, Start(rows), records, r);
      if !Aside(c, r) {
        RetireRow(c, p, rows, Minted(r.native, r.digest));
      }
    }
  }

  // ----- running again -----

  lemma MergeUpToDate(row: Row, r: Scanned, now: string)
    requires UpToDate(row, r)
    ensures Merge(row, r, now) == row
  {
  }

  lemma {:induction false} CurrentRecordsSkip(c: Context, rows: Rows, p: Progress, records: seq<Scanned>)
    requires Snapshot(c.prior, rows) && NoLegacy(rows) && p.rows == rows
    requires forall r :: r in records ==> Current(c, rows, r)
    ensures var q := RecordAll(c, p, records);
      q.rows == rows && q.renamedOld == p.renamedOld && q.changes == p.changes && q.inserted == p.inserted
    decreases |records|
  {
    if records != [] {
      var r := records[0];
      assert r in records;
      ExistingMinted(c.prior, r, rows);
      if !Aside(c, r) {
        MergeUpToDate(rows[Minted(r.native, r.digest)], r, c.clock.text);
      }
      CurrentRecordsSkip(c, rows, Record(c, p, r), records[1..]);
    }
  }

  lemma {:induction false} NothingVanished(c: Context, p: Progress, prior: seq<Row>)
    requires forall i :: 0 <= i < |prior| ==> !Vanished(c, p.renamedOld, prior[i])
    ensures RetireAll(c, p, prior) == p
    decreases |prior|
  {
    if prior != [] {
      NothingVanished(c, p, prior[1..]);
    }
  }

  /** A run over rows that are up to date with its scan, whatever the clock and the order the rows
      are answered in, writes nothing. */
  lemma SettledRunIsNoOp(c: Context, rows: Rows)
    requires Snapshot(c.prior, rows) && NoLegacy(rows) && Withdrew(c.scan, rows)
    requires forall r :: r in c.scan.records ==> Current(c, rows, r)
    ensures Run(c, rows).rows == rows && Run(c, rows).changes == [] && Run(c, rows).inserted == 0
  {
    var p := RecordAll(c, Start(rows), c.scan.records);
    CurrentRecordsSkip(c, rows, Start(rows), c.scan.records);
    forall i | 0 <= i < |c.prior| ensures !Vanished(c, p.renamedOld, c.prior[i]) {
      assert c.prior[i].id in rows && rows[c.prior[i].id] == c.prior[i];
    }
    NothingVanished(c, p, c.prior);
  }

  /** Ingesting the same scan again by the same clock, with the same signers revoked, is a no-op. */
  lemma IngestingAgainIsNoOp(first: Context, second: Context, rows: Rows)
    requires Snapshot(first.prior, rows) && NoLegacy(rows) && UniqueNatives(first.scan.records)
    requires second.scan == first.scan && second.clock == first.clock && second.revoked == first.revoked
    requires Snapshot(second.prior, Run(first, rows).rows)
    ensures var once := Run(first, rows).rows; var again := Run(second, once);
      again.rows == once && again.changes == [] && again.inserted == 0
  {
    IngestingLaterExact(first, second, rows);
  }

  /** A record set aside leaves the row it would have made, or not made, as it is. */
  lemma {:induction false} AsideLeaves(c: Context, rows: Rows, p: Progress, records: seq<Scanned>, r: Scanned)
    requires Snapshot(c.prior, rows) && Honest(rows) && UniqueNatives(records) && Natives(records) <= Natives(c.scan.records)
    requires Aside(c, r) && r.native in Natives(c.scan.records) && forall x :: x in records && x.native == r.native ==> x == r
    ensures var id, q := Minted(r.native, r.digest), RecordAll(c, p, records);
      (id in q.rows <==> id in p.rows) && (id in p.rows ==> q.rows[id] == p.rows[id])
    decreases |records|
  {
    if records != [] {
      var id, first := Minted(r.native, r.digest), records[0];
      UniqueStep(records);
      NativesStep(first, records[1..]);
      assert first in records;
      RecordWrites(c, p, first, rows, id);
      OldNameFound(c, p, first, rows);
      AsideLeaves(c, rows, Record(c, p, first), records[1..], r);
    }
  }

  lemma AsideRunLeaves(c: Context, rows: Rows, r: Scanned)
    requires Snapshot(c.prior, rows) && NoLegacy(rows) && UniqueNatives(c.scan.records) && r in c.scan.records && Aside(c, r)
    ensures var id, q := Minted(r.native, r.digest), Run(c, rows).rows; (id in q <==> id in rows) && (id in rows ==> q[id] == rows[id])
  {
    var records := c.scan.records;
    var id, p := Minted(r.native, r.digest), RecordAll(c, Start(rows), records);
    AsideLeaves(c, rows, Start(rows), records, r);
    RetireWrites(c, p, c.prior, id);
    if id in rows {
      RetireRow(c, p, rows, id);
    }
  }

  /** Ingesting the same scan again, by another clock or with other signers revoked, is a no-op exactly
      when every record the first run set aside and the second does not is in the rows already, up to
      date. */
  lemma IngestingLaterExact(first: Context, second: Context, rows: Rows)
    requires Snapshot(first.prior, rows) && NoLegacy(rows) && UniqueNatives(first.scan.records)
    requires second.scan == first.scan && Snapshot(second.prior, Run(first, rows).rows)
    ensures var once := Run(first, rows).rows; var again := Run(second, once);
      (again.rows == once && again.changes == [] && again.inserted == 0) <==>
        forall r :: r in first.scan.records && Aside(first, r) && !Aside(second, r) ==> AlreadyThere(rows, r)
  {
    hide Run, Aside, Withdrew, NoLegacy, UniqueNatives, UpToDate;
    var once := Run(first, rows).rows;
    RunSettles(first, rows);
    forall r | r in first.scan.records && Aside(first, r) ensures AlreadyThere(once, r) <==> AlreadyThere(rows, r) {
      AsideRunLeaves(first, rows, r);
    }
    RunSettles(second, once);
    if forall r :: r in first.scan.records && Aside(first, r) && !Aside(second, r) ==> AlreadyThere(rows, r) {
      forall r | r in second.scan.records ensures Current(second, once, r) {
      }
      SettledRunIsNoOp(second, once);
    }
  }

  // ----- renames -----

  /** A rename in the log: what it was, what it became. */
  predicate Renaming(c: Context, rows: Rows, now: Rows, ch: Change) {
    && ch.was in rows && rows[ch.was].lifecycle == Observed && rows[ch.was].native !in Natives(c.scan.records)
    && ch.was in now && now[ch.was] == rows[ch.was].(lifecycle := Renamed)
    && ch.becomes !in rows && ch.becomes in now && ch.becomes.Minted? && ch.becomes.native in Natives(c.scan.records)
    && now[ch.becomes].id == ch.becomes && now[ch.becomes].digest == rows[ch.was].digest
    && now[ch.becomes].renamedFrom == Some(rows[ch.was].native)
  }

  ghost predicate Paired(c: Context, rows: Rows, p: Progress, records: seq<Scanned>) {
    && (forall i :: 0 <= i < |p.changes| && p.changes[i].kind == RenamedTo ==>
         && Renaming(c, rows, p.rows, p.changes[i])
         && p.changes[i].was in p.renamedOld && p.changes[i].becomes.native !in Natives(records))
    && OneToOne(p.changes)
  }

  predicate OneToOne(changes: seq<Change>) {
    forall i, j :: 0 <= i < j < |changes| && changes[i].kind == RenamedTo && changes[j].kind == RenamedTo ==>
      changes[i].was != changes[j].was && changes[i].becomes != changes[j].becomes
  }

  /** The changes a record adds: none is a rename but the one to its old name. */
  lemma RecordChanges(c: Context, p: Progress, r: Scanned, rows: Rows)
    requires Snapshot(c.prior, rows)
    ensures p.changes <= Record(c, p, r).changes
    ensures var was := OldName(c, p, r); var more := Record(c, p, r).changes[|p.changes|..];
      if was.Some? then more == [Change(was.value.id, Minted(r.native, r.digest), RenamedTo)]
      else forall i :: 0 <= i < |more| ==> more[i].kind != RenamedTo
  {
    SupersedeChanges(p, c.prior, r.native, Minted(r.native, r.digest));
  }

  lemma RenamingStays(c: Context, rows: Rows, p: Progress, r: Scanned, ch: Change)
    requires Snapshot(c.prior, rows) && Honest(rows) && r.native in Natives(c.scan.records)
    requires Renaming(c, rows, p.rows, ch) && ch.was in p.renamedOld
    ensures Renaming(c, rows, Record(c, p, r).rows, ch)
  {
    OldNameFound(c, p, r, rows);
    RecordWrites(c, p, r, rows, ch.was);
    RecordWrites(c, p, r, rows, ch.becomes);
  }

  lemma RenamingStarts(c: Context, rows: Rows, p: Progress, r: Scanned, rest: seq<Scanned>)
    requires Snapshot(c.prior, rows) && Honest(rows) && Standing(c, rows, p, [r] + rest)
    requires r.native in Natives(c.scan.records) && OldName(c, p, r).Some?
    ensures Renaming(c, rows, Record(c, p, r).rows, Change(OldName(c, p, r).value.id, Minted(r.native, r.digest), RenamedTo))
  {
    NativesStep(r, rest);
    OldNameFound(c, p, r, rows);
    ExistingFound(c.prior, r, rows);
    var was := OldName(c, p, r).value;
    RecordWrites(c, p, r, rows, was.id);
    MintedIsNew(c, p, r, rows);
  }

  lemma PairedNext(c: Context, rows: Rows, p: Progress, r: Scanned, rest: seq<Scanned>)
    requires Snapshot(c.prior, rows) && Honest(rows) && Standing(c, rows, p, [r] + rest) && Paired(c, rows, p, [r] + rest)
    requires r.native in Natives(c.scan.records) && r.native !in Natives(rest)
    ensures Paired(c, rows, Record(c, p, r), rest)
  {
    var q := Record(c, p, r);
    NativesStep(r, rest);
    RecordChanges(c, p, r, rows);
    OldNameFound(c, p, r, rows);
    RecordWrites(c, p, r, rows, Minted(r.native, r.digest));
    var n := |p.changes|;
    assert q.changes == p.changes + q.changes[n..];
    forall i | 0 <= i < |q.changes| && q.changes[i].kind == RenamedTo
      ensures Renaming(c, rows, q.rows, q.changes[i])
      ensures q.changes[i].was in q.renamedOld && q.changes[i].becomes.native !in Natives(rest)
      ensures i < n ==> q.changes[i] == p.changes[i]
      ensures i >= n ==> OldName(c, p, r).Some? && q.changes[i].was == OldName(c, p, r).value.id && q.changes[i].becomes == Minted(r.native, r.digest) && i == n
    {
      if i < n {
        assert q.changes[i] == p.changes[i];
        RenamingStays(c, rows, p, r, p.changes[i]);
      } else {
        assert q.changes[i] == q.changes[n..][i - n];
        RenamingStarts(c, rows, p, r, rest);
      }
    }
  }

  lemma {:induction false} PairedAfter(c: Context, rows: Rows, p: Progress, records: seq<Scanned>)
    requires Snapshot(c.prior, rows) && Honest(rows) && Standing(c, rows, p, records) && Paired(c, rows, p, records)
    requires UniqueNatives(records) && Natives(records) <= Natives(c.scan.records)
    ensures Paired(c, rows, RecordAll(c, p, records), [])
    decreases |records|
  {
    if records != [] {
      UniqueStep(records);
      NativesStep(records[0], records[1..]);
      StandingNext(c, rows, p, records[0], records[1..]);
      PairedNext(c, rows, p, records[0], records[1..]);
      PairedAfter(c, rows, Record(c, p, records[0]), records[1..]);
    }
  }

  lemma {:induction false} RetireChanges(c: Context, p: Progress, prior: seq<Row>)
    ensures p.changes <= RetireAll(c, p, prior).changes
    ensures forall i :: |p.changes| <= i < |RetireAll(c, p, prior).changes| ==> RetireAll(c, p, prior).changes[i].kind == Withdrawn
    decreases |prior|
  {
    if prior != [] {
      var was := prior[0];
      var next := if Vanished(c, p.renamedOld, was) then
          p.(rows := Update(p.rows, Retired(c.scan, was)), changes := p.changes + [Change(was.id, was.id, Withdrawn)])
        else p;
      RetireChanges(c, next, prior[1..]);
    }
  }

  /** The renames of a run pair vanished rows and new ones one to one, with equal content: the old
      row ends as renamed, and the new one names the native id it was. */
  lemma RenamesPair(c: Context, rows: Rows)
    requires Snapshot(c.prior, rows) && Honest(rows) && UniqueNatives(c.scan.records)
    ensures var q := Run(c, rows);
      && OneToOne(q.changes)
      && forall i :: 0 <= i < |q.changes| && q.changes[i].kind == RenamedTo ==> Renaming(c, rows, q.rows, q.changes[i])
  {
    var p, q := RecordAll(c, Start(rows), c.scan.records), Run(c, rows);
    StandingStart(c, rows);
    PairedAfter(c, rows, Start(rows), c.scan.records);
    RetireChanges(c, p, c.prior);
    forall i | 0 <= i < |q.changes| && q.changes[i].kind == RenamedTo
      ensures i < |p.changes| && q.changes[i] == p.changes[i] && Renaming(c, rows, q.rows, q.changes[i])
    {
      RetireRow(c, p, rows, p.changes[i].was);
      RetireRow(c, p, rows, p.changes[i].becomes);
    }
  }
}
