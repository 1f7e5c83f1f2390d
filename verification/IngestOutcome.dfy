/** What a run makes of every row, and which rows it adds (ingest.rs 379-675). */
module IngestOutcome {
  import opened Wrappers
  import opened Ingest
  import opened IngestLaws
  import IngestHistory

  // ----- rows of scanned native ids -----

  /** A row whose native id the scan holds as `r`. Set aside, the record moves nothing. A record of the
      row's content brings its conclusions, and the row back when it was gone, or away when it is absent. A
      record of a known other content leaves the row alone, and one of a new content ends it. */
  predicate ScannedFate(c: Context, rows: Rows, was: Row, r: Scanned, now: Row) {
    if Aside(c, r) then now == was
    else if was.digest == r.digest then
      && now == was.(revision := r.revision, branch := if r.revision == was.revision then was.branch else r.branch,
                     origin := Some(r.origin), reading := r.reading, lifecycle := now.lifecycle, observedAt := now.observedAt)
      && now.lifecycle == (if r.present && was.lifecycle in {Retracted, Absent, Rewritten} then Observed
                           else if !r.present && was.lifecycle == Observed then Absent else was.lifecycle)
      && now.observedAt == (if now.lifecycle == Observed && was.lifecycle != Observed then c.clock.text else was.observedAt)
    else if Minted(r.native, r.digest) in rows then now == was
    else now == if was.lifecycle == Observed then was.(lifecycle := Superseded) else was
  }

  /** Read again: only its row is written. */
  lemma FateOfKnown(c: Context, rows: Rows, p: Progress, r: Scanned, id: Id)
    requires NoLegacy(rows) && id in rows && rows[id].native == r.native && id in p.rows && p.rows[id] == rows[id]
    requires Minted(r.native, r.digest) in rows && !Aside(c, r)
    requires Record(c, p, r) == Reobserve(p, rows[Minted(r.native, r.digest)], Merge(rows[Minted(r.native, r.digest)], r, c.clock.text))
    ensures id in Record(c, p, r).rows && ScannedFate(c, rows, rows[id], r, Record(c, p, r).rows[id])
  {
    assert id == Minted(rows[id].native, rows[id].digest);
  }

  /** A new content: the other rows of the native id end. */
  lemma FateOfOther(c: Context, rows: Rows, p: Progress, r: Scanned, id: Id)
    requires Snapshot(c.prior, rows) && NoLegacy(rows) && id in rows && rows[id].native == r.native
    requires id in p.rows && p.rows[id] == rows[id]
    requires Minted(r.native, r.digest) !in rows && !Aside(c, r)
    requires Record(c, p, r) == AddNew(c, p, r)
    ensures id in Record(c, p, r).rows && ScannedFate(c, rows, rows[id], r, Record(c, p, r).rows[id])
  {
    hide Supersede;
    var i :| 0 <= i < |c.prior| && c.prior[i] == rows[id];
    assert c.prior[i].id == id && HasNative(c.prior, r.native);
    IngestHistory.SupersededAll(p, c.prior, r.native, Minted(r.native, r.digest), rows, id);
    assert id == Minted(rows[id].native, rows[id].digest);
  }

  lemma FateNow(c: Context, rows: Rows, p: Progress, r: Scanned, id: Id)
    requires Snapshot(c.prior, rows) && NoLegacy(rows) && id in rows && rows[id].native == r.native
    requires id in p.rows && p.rows[id] == rows[id]
    ensures id in Record(c, p, r).rows && ScannedFate(c, rows, rows[id], r, Record(c, p, r).rows[id])
  {
    hide Existing, AddNew, Reobserve, Merge;
    ExistingMinted(c.prior, r, rows);
    if Aside(c, r) {
    } else if Minted(r.native, r.digest) in rows {
      FateOfKnown(c, rows, p, r, id);
    } else {
      FateOfOther(c, rows, p, r, id);
    }
  }

  lemma {:induction false} FateWithin(c: Context, rows: Rows, p: Progress, records: seq<Scanned>, r: Scanned, id: Id)
    requires Snapshot(c.prior, rows) && NoLegacy(rows) && Standing(c, rows, p, records)
    requires UniqueNatives(records) && Natives(records) <= Natives(c.scan.records)
    requires r in records && id in rows && rows[id].native == r.native
    ensures id in RecordAll(c, p, records).rows && ScannedFate(c, rows, rows[id], r, RecordAll(c, p, records).rows[id])
    decreases |records|
  {
    hide Record, ScannedFate;
    UniqueStep(records);
    NativesStep(records[0], records[1..]);
    var next := Record(c, p, records[0]);
    StandingNext(c, rows, p, records[0], records[1..]);
    if r == records[0] {
      FateNow(c, rows, p, r, id);
      OthersLeave(c, rows, next, records[1..], id);
    } else {
      FateWithin(c, rows, next, records[1..], r, id);
    }
  }

  // ----- new rows -----

  /** The row of a content seen for the first time; what it was renamed from is `RenamesPair`'s. */
  predicate NewRow(c: Context, r: Scanned, now: Row) {
    now == Row(Minted(r.native, r.digest), r.native, r.digest, if r.present then Observed else Absent, c.clock.text,
               now.renamedFrom, Some(r.unit), r.revision, r.branch, Some(r.origin), r.reading, r.kept)
  }

  lemma {:induction false} NewWithin(c: Context, rows: Rows, p: Progress, records: seq<Scanned>, r: Scanned)
    requires Snapshot(c.prior, rows) && NoLegacy(rows) && Standing(c, rows, p, records)
    requires UniqueNatives(records) && Natives(records) <= Natives(c.scan.records)
    requires r in records && !Aside(c, r) && Minted(r.native, r.digest) !in rows
    ensures var id, q := Minted(r.native, r.digest), RecordAll(c, p, records).rows; id in q && NewRow(c, r, q[id])
    decreases |records|
  {
    hide Record, Aside;
    UniqueStep(records);
    NativesStep(records[0], records[1..]);
    var next := Record(c, p, records[0]);
    StandingNext(c, rows, p, records[0], records[1..]);
    if r == records[0] {
      ExistingMinted(c.prior, r, rows);
      MintedIsNew(c, p, r, rows);
      OthersLeave(c, rows, next, records[1..], Minted(r.native, r.digest));
    } else {
      NewWithin(c, rows, next, records[1..], r);
    }
  }

  lemma {:induction false} OnlyNew(c: Context, rows: Rows, p: Progress, records: seq<Scanned>, id: Id)
    requires Snapshot(c.prior, rows) && Honest(rows) && id in RecordAll(c, p, records).rows && id !in p.rows
    ensures exists r :: r in records && !Aside(c, r) && id == Minted(r.native, r.digest)
    decreases |records|
  {
    hide Aside;
    var r := records[0];
    if id in Record(c, p, r).rows {
      RecordWrites(c, p, r, rows, id);
      assert r in records;
    } else {
      OnlyNew(c, rows, Record(c, p, r), records[1..], id);
    }
  }

  // ----- rows outside the scan -----

  function RenamedIds(changes: seq<Change>): set<Id> {
    set ch | ch in changes && ch.kind == RenamedTo :: ch.was
  }

  /** The source still has it outside the scan, under the origin all its rows have. */
  predicate StillElsewhere(scan: Scan, rows: Rows, native: string) {
    native in scan.presentElsewhere &&
    forall id :: id in rows && rows[id].native == native ==> rows[id].origin == Some(scan.presentElsewhere[native])
  }

  lemma ElsewhereExact(c: Context, rows: Rows, native: string)
    requires Snapshot(c.prior, rows)
    ensures Elsewhere(c, native) <==> StillElsewhere(c.scan, rows, native)
  {
    if Elsewhere(c, native) {
      forall id | id in rows && rows[id].native == native ensures rows[id].origin == Some(c.scan.presentElsewhere[native]) {
        var i :| 0 <= i < |c.prior| && c.prior[i] == rows[id];
      }
    }
  }

  /** A row whose native id the scan does not hold: renamed when the log says so; else, when it was observed
      and is not elsewhere, retracted while the source is there with its unit, and absent otherwise. */
  predicate UnscannedFate(c: Context, rows: Rows, renamed: set<Id>, was: Row, now: Row) {
    if was.id in renamed then was.lifecycle == Observed && now == was.(lifecycle := Renamed)
    else if was.lifecycle == Observed && !StillElsewhere(c.scan, rows, was.native) then
      now == was.(lifecycle := if c.scan.available && was.unit.Some? && was.unit.value in c.scan.unitIds then Retracted else Absent)
    else now == was
  }

  lemma RenamedMore(changes: seq<Change>, more: seq<Change>)
    ensures RenamedIds(changes + more) == RenamedIds(changes) + RenamedIds(more)
  {
  }

  lemma {:induction false} RenamedLogged(c: Context, rows: Rows, p: Progress, records: seq<Scanned>)
    requires Snapshot(c.prior, rows) && Honest(rows) && RenamedIds(p.changes) == p.renamedOld
    ensures RenamedIds(RecordAll(c, p, records).changes) == RecordAll(c, p, records).renamedOld
    ensures p.renamedOld <= RecordAll(c, p, records).renamedOld
    decreases |records|
  {
    hide Record, OldName;
    if records != [] {
      var r := records[0];
      var q := Record(c, p, r);
      RecordChanges(c, p, r, rows);
      RecordWrites(c, p, r, rows, Minted(r.native, r.digest));
      assert q.changes == p.changes + q.changes[|p.changes|..];
      RenamedMore(p.changes, q.changes[|p.changes|..]);
      RenamedLogged(c, rows, q, records[1..]);
    }
  }

  lemma {:induction false} RetireRenamesNone(c: Context, p: Progress, prior: seq<Row>)
    ensures RenamedIds(RetireAll(c, p, prior).changes) == RenamedIds(p.changes)
    decreases |prior|
  {
    if prior != [] {
      var was := prior[0];
      var change := Change(was.id, was.id, Withdrawn);
      RenamedMore(p.changes, [change]);
      var next := if Vanished(c, p.renamedOld, was) then
          p.(rows := Update(p.rows, Retired(c.scan, was)), changes := p.changes + [change])
        else p;
      RetireRenamesNone(c, next, prior[1..]);
    }
  }

  // ----- the whole run -----

  lemma UnscannedRow(c: Context, rows: Rows, id: Id)
    requires Snapshot(c.prior, rows) && NoLegacy(rows) && UniqueNatives(c.scan.records)
    requires id in rows && rows[id].native !in Natives(c.scan.records)
    ensures var run := Run(c, rows); id in run.rows && UnscannedFate(c, rows, RenamedIds(run.changes), rows[id], run.rows[id])
  {
    hide RecordAll, RetireAll, Elsewhere, StillElsewhere;
    var records, start := c.scan.records, Start(rows);
    var p := RecordAll(c, start, records);
    StandingStart(c, rows);
    StandingAfter(c, rows, start, records);
    RenamedLogged(c, rows, start, records);
    RetireRenamesNone(c, p, c.prior);
    RetireRow(c, p, rows, id);
    ElsewhereExact(c, rows, rows[id].native);
  }

  /** Withdrawing leaves the rows of scanned native ids and the new ones. */
  lemma ScannedStays(c: Context, rows: Rows, id: Id)
    requires Snapshot(c.prior, rows) && NoLegacy(rows) && UniqueNatives(c.scan.records)
    ensures var p := RecordAll(c, Start(rows), c.scan.records);
      && (id in Run(c, rows).rows <==> id in p.rows) && (id in rows ==> id in p.rows)
      && (id in p.rows && (id in rows ==> rows[id].native in Natives(c.scan.records)) ==> Run(c, rows).rows[id] == p.rows[id])
  {
    hide RecordAll, RetireAll;
    var p := RecordAll(c, Start(rows), c.scan.records);
    StandingStart(c, rows);
    StandingAfter(c, rows, Start(rows), c.scan.records);
    RetireWrites(c, p, c.prior, id);
    if id in p.rows {
      RetireRow(c, p, rows, id);
    }
  }

  /** A run, row by row: which rows there are after it, and what each of them says. */
  lemma RunExact(c: Context, rows: Rows, id: Id)
    requires Snapshot(c.prior, rows) && NoLegacy(rows) && UniqueNatives(c.scan.records)
    ensures var records, run := c.scan.records, Run(c, rows);
      && (id in run.rows <==> id in rows || exists r :: r in records && !Aside(c, r) && id == Minted(r.native, r.digest))
      && (id in rows && rows[id].native !in Natives(records) ==>
           UnscannedFate(c, rows, RenamedIds(run.changes), rows[id], run.rows[id]))
      && (forall r :: r in records && id in rows && rows[id].native == r.native ==> ScannedFate(c, rows, rows[id], r, run.rows[id]))
      && (forall r :: r in records && !Aside(c, r) && id == Minted(r.native, r.digest) && id !in rows ==> NewRow(c, r, run.rows[id]))
  {
    hide Run, RecordAll, Aside, ScannedFate, UnscannedFate, NewRow;
    var records, start := c.scan.records, Start(rows);
    StandingStart(c, rows);
    ScannedStays(c, rows, id);
    if id in rows && rows[id].native !in Natives(records) {
      UnscannedRow(c, rows, id);
    }
    if id !in rows && id in RecordAll(c, start, records).rows {
      OnlyNew(c, rows, start, records, id);
    }
    forall r | r in records && id in rows && rows[id].native == r.native ensures ScannedFate(c, rows, rows[id], r, Run(c, rows).rows[id]) {
      FateWithin(c, rows, start, records, r, id);
    }
    forall r | r in records && !Aside(c, r) && id == Minted(r.native, r.digest) && id !in rows
      ensures id in RecordAll(c, start, records).rows && NewRow(c, r, Run(c, rows).rows[id]) {
      NewWithin(c, rows, start, records, r);
    }
  }

  // ----- no rename is missed -----

  lemma {:induction false} FindsOne(prior: seq<Row>, digest: string, present: set<string>, renamedOld: set<Id>)
    requires FindRenamed(prior, digest, present, renamedOld).None?
    ensures forall i :: 0 <= i < |prior| ==> !Renamable(prior[i], digest, present, renamedOld)
  {
    if prior != [] {
      FindsOne(prior[1..], digest, present, renamedOld);
      assert forall i :: 0 < i < |prior| ==> prior[i] == prior[1..][i - 1];
    }
  }

  /** A row that vanished, with the content of `r`. */
  predicate Movable(c: Context, was: Row, r: Scanned) {
    was.lifecycle == Observed && was.digest == r.digest && was.native !in Natives(c.scan.records)
  }

  lemma MovedOrTaken(c: Context, rows: Rows, p: Progress, r: Scanned, id: Id)
    requires Snapshot(c.prior, rows) && NoLegacy(rows) && id in rows && Movable(c, rows[id], r)
    requires !Aside(c, r) && Minted(r.native, r.digest) !in rows && Minted(r.native, r.digest) !in p.rows
    requires forall other :: other in rows ==> rows[other].native != r.native
    ensures var minted, q := Minted(r.native, r.digest), Record(c, p, r);
      minted in q.rows && (q.rows[minted].renamedFrom.Some? || id in p.renamedOld)
  {
    ExistingMinted(c.prior, r, rows);
    MintedIsNew(c, p, r, rows);
    assert !HasNative(c.prior, r.native);
    if OldName(c, p, r).None? {
      FindsOne(c.prior, r.digest, Natives(c.scan.records), p.renamedOld);
      var i :| 0 <= i < |c.prior| && c.prior[i] == rows[id];
    }
  }

  lemma {:induction false} MovedWithin(c: Context, rows: Rows, p: Progress, records: seq<Scanned>, r: Scanned, id: Id)
    requires Snapshot(c.prior, rows) && NoLegacy(rows) && Standing(c, rows, p, records) && RenamedIds(p.changes) == p.renamedOld
    requires UniqueNatives(records) && Natives(records) <= Natives(c.scan.records)
    requires r in records && !Aside(c, r) && Minted(r.native, r.digest) !in rows && id in rows && Movable(c, rows[id], r)
    requires forall other :: other in rows ==> rows[other].native != r.native
    ensures var minted, q := Minted(r.native, r.digest), RecordAll(c, p, records);
      minted in q.rows && (q.rows[minted].renamedFrom.Some? || id in q.renamedOld)
    decreases |records|
  {
    hide Record, Aside, Movable;
    UniqueStep(records);
    NativesStep(records[0], records[1..]);
    var next := Record(c, p, records[0]);
    StandingNext(c, rows, p, records[0], records[1..]);
    RenamedLogged(c, rows, p, [records[0]]);
    RecordOnce(c, p, records[0]);
    if r == records[0] {
      MovedOrTaken(c, rows, p, r, id);
      OthersLeave(c, rows, next, records[1..], Minted(r.native, r.digest));
      RenamedLogged(c, rows, next, records[1..]);
    } else {
      MovedWithin(c, rows, next, records[1..], r, id);
    }
  }

  lemma RecordOnce(c: Context, p: Progress, r: Scanned)
    ensures RecordAll(c, p, [r]) == Record(c, p, r)
  {
    assert [r][1..] == [];
  }

  /** A new content under a new native id is a rename whenever it can be: if its row names no old one, every
      vanished row of that content was taken by another. */
  lemma NoRenameIsMissed(c: Context, rows: Rows, r: Scanned, id: Id)
    requires Snapshot(c.prior, rows) && NoLegacy(rows) && UniqueNatives(c.scan.records)
    requires r in c.scan.records && !Aside(c, r) && id in rows && Movable(c, rows[id], r)
    requires forall other :: other in rows ==> rows[other].native != r.native
    ensures var minted, run := Minted(r.native, r.digest), Run(c, rows);
      minted in run.rows && (run.rows[minted].renamedFrom.None? ==> id in RenamedIds(run.changes))
  {
    hide RecordAll, RetireAll, Aside, Movable;
    var records, start, minted := c.scan.records, Start(rows), Minted(r.native, r.digest);
    var p := RecordAll(c, start, records);
    assert minted !in rows;
    StandingStart(c, rows);
    MovedWithin(c, rows, start, records, r, id);
    RenamedLogged(c, rows, start, records);
    RetireRenamesNone(c, p, c.prior);
    RetireRow(c, p, rows, minted);
  }

  // ----- the counter and the log -----

  lemma SkipInserts(c: Context, rows: Rows, p: Progress, r: Scanned)
    requires Snapshot(c.prior, rows) && Honest(rows) && (Aside(c, r) || Existing(c.prior, r).Some?)
    ensures var q := Record(c, p, r); q.inserted == p.inserted && q.rows.Keys == p.rows.Keys
  {
    ExistingFound(c.prior, r, rows);
  }

  lemma AddInserts(c: Context, rows: Rows, p: Progress, r: Scanned)
    requires Snapshot(c.prior, rows) && !Aside(c, r) && Existing(c.prior, r).None? && Minted(r.native, r.digest) !in p.rows
    ensures var q := Record(c, p, r); q.inserted == p.inserted + 1 && q.rows.Keys == p.rows.Keys + {Minted(r.native, r.digest)}
  {
    hide Supersede, FindRenamed, Aside;
    SupersedeWrites(p, c.prior, r.native, Minted(r.native, r.digest), rows, Minted(r.native, r.digest));
    OldNameFound(c, p, r, rows);
  }

  lemma RecordInserts(c: Context, rows: Rows, p: Progress, r: Scanned, rest: seq<Scanned>)
    requires Snapshot(c.prior, rows) && NoLegacy(rows) && Standing(c, rows, p, [r] + rest)
    ensures var q := Record(c, p, r); q.inserted - p.inserted == |q.rows| - |p.rows|
  {
    NativesStep(r, rest);
    ExistingMinted(c.prior, r, rows);
    hide Record, Aside, Existing, Standing;
    var q := Record(c, p, r);
    if Aside(c, r) || Existing(c.prior, r).Some? {
      SkipInserts(c, rows, p, r);
      Sizes(p.rows, q.rows, {});
    } else {
      assert Minted(r.native, r.digest) !in p.rows by { NotThere(c, rows, p, r, rest); }
      AddInserts(c, rows, p, r);
      Sizes(p.rows, q.rows, {Minted(r.native, r.digest)});
    }
  }

  lemma NotThere(c: Context, rows: Rows, p: Progress, r: Scanned, rest: seq<Scanned>)
    requires Standing(c, rows, p, [r] + rest) && Minted(r.native, r.digest) !in rows
    ensures Minted(r.native, r.digest) !in p.rows
  {
    NativesStep(r, rest);
  }

  lemma Sizes(a: Rows, b: Rows, more: set<Id>)
    requires b.Keys == a.Keys + more && a.Keys !! more
    ensures |b| == |a| + |more|
  {
    assert |a.Keys| == |a| && |b.Keys| == |b|;
  }

  lemma {:induction false} InsertedWithin(c: Context, rows: Rows, p: Progress, records: seq<Scanned>)
    requires Snapshot(c.prior, rows) && NoLegacy(rows) && Standing(c, rows, p, records)
    requires UniqueNatives(records) && Natives(records) <= Natives(c.scan.records)
    ensures var q := RecordAll(c, p, records); q.inserted - p.inserted == |q.rows| - |p.rows|
    decreases |records|
  {
    hide Record;
    if records != [] {
      UniqueStep(records);
      NativesStep(records[0], records[1..]);
      StandingNext(c, rows, p, records[0], records[1..]);
      RecordInserts(c, rows, p, records[0], records[1..]);
      InsertedWithin(c, rows, Record(c, p, records[0]), records[1..]);
    }
  }

  /** The rows reported as inserted are as many as the run added. */
  lemma InsertedExact(c: Context, rows: Rows)
    requires Snapshot(c.prior, rows) && NoLegacy(rows) && UniqueNatives(c.scan.records)
    ensures |Run(c, rows).rows| == |rows| + Run(c, rows).inserted
  {
    hide RecordAll, RetireAll;
    var p := RecordAll(c, Start(rows), c.scan.records);
    StandingStart(c, rows);
    InsertedWithin(c, rows, Start(rows), c.scan.records);
    RetireWrites(c, p, c.prior, Minted("", ""));
    assert Run(c, rows).rows.Keys == p.rows.Keys + {};
    Sizes(p.rows, Run(c, rows).rows, {});
  }

  /** The records with a row that already says what they say. */
  predicate Settled(c: Context, rows: Rows, r: Scanned) {
    !Aside(c, r) && AlreadyThere(rows, r)
  }

  function SettledCount(c: Context, rows: Rows, records: seq<Scanned>): nat {
    if records == [] then 0 else SettledCount(c, rows, records[1..]) + if Settled(c, rows, records[0]) then 1 else 0
  }

  lemma MergeExact(was: Row, r: Scanned, now: string)
    ensures Merge(was, r, now) == was <==> UpToDate(was, r)
  {
  }

  lemma AddSkips(c: Context, p: Progress, r: Scanned)
    ensures AddNew(c, p, r).skipped == p.skipped
  {
    SupersedeSkips(p, c.prior, r.native, Minted(r.native, r.digest));
  }

  lemma {:induction false} SupersedeSkips(p: Progress, prior: seq<Row>, native: string, becomes: Id)
    ensures Supersede(p, prior, native, becomes).skipped == p.skipped
    decreases |prior|
  {
    if prior != [] {
      var was := prior[0];
      var next := if was.native == native && was.lifecycle == Observed then
          p.(rows := Update(p.rows, was.(lifecycle := Superseded)), changes := p.changes + [Change(was.id, becomes, Amended)])
        else p;
      SupersedeSkips(next, prior[1..], native, becomes);
    }
  }

  lemma {:induction false} SkippedWithin(c: Context, rows: Rows, p: Progress, records: seq<Scanned>)
    requires Snapshot(c.prior, rows) && NoLegacy(rows)
    ensures RecordAll(c, p, records).skipped == p.skipped + SettledCount(c, rows, records)
    decreases |records|
  {
    hide AddNew, Merge, Existing, Aside, UpToDate;
    if records != [] {
      var r := records[0];
      ExistingMinted(c.prior, r, rows);
      if Existing(c.prior, r).Some? {
        MergeExact(Existing(c.prior, r).value, r, c.clock.text);
      }
      AddSkips(c, p, r);
      SkippedWithin(c, rows, Record(c, p, r), records[1..]);
    }
  }

  lemma {:induction false} RetireSkips(c: Context, p: Progress, prior: seq<Row>)
    ensures RetireAll(c, p, prior).skipped == p.skipped
    decreases |prior|
  {
    if prior != [] {
      var was := prior[0];
      var next := if Vanished(c, p.renamedOld, was) then
          p.(rows := Update(p.rows, Retired(c.scan, was)), changes := p.changes + [Change(was.id, was.id, Withdrawn)])
        else p;
      RetireSkips(c, next, prior[1..]);
    }
  }

  /** The records reported as unchanged are those whose row was up to date before the run. */
  lemma SkippedExact(c: Context, rows: Rows)
    requires Snapshot(c.prior, rows) && NoLegacy(rows)
    ensures Run(c, rows).skipped == SettledCount(c, rows, c.scan.records)
  {
    hide RecordAll, RetireAll;
    SkippedWithin(c, rows, Start(rows), c.scan.records);
    RetireSkips(c, RecordAll(c, Start(rows), c.scan.records), c.prior);
  }

  /** The log says that a row moved. */
  predicate Logged(changes: seq<Change>, id: Id) {
    exists i :: 0 <= i < |changes| && changes[i].was == id
  }

  lemma LoggedMore(changes: seq<Change>, more: seq<Change>, id: Id)
    ensures Logged(changes + more, id) <==> Logged(changes, id) || Logged(more, id)
  {
    var all := changes + more;
    if i :| 0 <= i < |changes| && changes[i].was == id {
      assert all[i].was == id;
    }
    if i :| 0 <= i < |more| && more[i].was == id {
      assert all[|changes| + i].was == id;
    }
    if i :| 0 <= i < |all| && all[i].was == id {
      assert i < |changes| ==> changes[i].was == id;
      assert i >= |changes| ==> more[i - |changes|].was == id;
    }
  }

  lemma LoggedOne(change: Change, id: Id)
    ensures Logged([change], id) <==> change.was == id
  {
    assert [change][0] == change;
  }

  lemma {:induction false} SupersedeLogs(p: Progress, prior: seq<Row>, native: string, becomes: Id, id: Id)
    ensures Logged(Supersede(p, prior, native, becomes).changes, id) <==>
      Logged(p.changes, id) || exists i :: 0 <= i < |prior| && prior[i].id == id && prior[i].native == native && prior[i].lifecycle == Observed
    decreases |prior|
  {
    hide Logged;
    if prior != [] {
      var was, tail := prior[0], prior[1..];
      var change := Change(was.id, becomes, Amended);
      var next := if was.native == native && was.lifecycle == Observed then
          p.(rows := Update(p.rows, was.(lifecycle := Superseded)), changes := p.changes + [change])
        else p;
      LoggedMore(p.changes, [change], id);
      LoggedOne(change, id);
      SupersedeLogs(next, tail, native, becomes, id);
      assert forall i :: 0 <= i < |tail| ==> tail[i] == prior[i + 1];
      assert forall i :: 0 < i < |prior| ==> prior[i] == tail[i - 1];
    }
  }

  /** What one record logs of a row. */
  predicate LogsIt(p: Progress, q: Progress, id: Id) {
    id in p.rows && id in q.rows &&
    (Logged(q.changes, id) <==> Logged(p.changes, id) || q.rows[id].lifecycle != p.rows[id].lifecycle)
  }

  lemma ReobserveLogs(p: Progress, was: Row, merged: Row, id: Id)
    requires merged.id == was.id && id in p.rows && (id == was.id ==> p.rows[id] == was)
    ensures LogsIt(p, Reobserve(p, was, merged), id)
  {
    hide Logged;
    var change := Change(merged.id, merged.id, Moved);
    LoggedMore(p.changes, [change], id);
    LoggedMore(p.changes, [], id);
    LoggedOne(change, id);
    LoggedNone(id);
  }

  lemma AddLogs(p: Progress, q: Progress, row: Row, id: Id)
    requires LogsIt(p, q, id)
    ensures LogsIt(p, Add(q, row), id)
  {
  }

  lemma AmendLogs(c: Context, rows: Rows, p: Progress, native: string, becomes: Id, id: Id)
    requires Snapshot(c.prior, rows) && NoLegacy(rows) && id in rows && id in p.rows
    requires rows[id].native == native ==> p.rows[id] == rows[id]
    ensures LogsIt(p, Supersede(p, c.prior, native, becomes), id)
  {
    hide Logged;
    SupersedeLogs(p, c.prior, native, becomes, id);
    SupersedeWrites(p, c.prior, native, becomes, rows, id);
    var i :| 0 <= i < |c.prior| && c.prior[i] == rows[id];
    assert c.prior[i].id == id;
    if rows[id].native == native {
      IngestHistory.SupersededAll(p, c.prior, native, becomes, rows, id);
    }
  }

  lemma RenameLogs(p: Progress, was: Row, becomes: Id, id: Id)
    requires id in p.rows && was.lifecycle == Observed && (id == was.id ==> p.rows[id] == was)
    ensures LogsIt(p, Rename(p, was, becomes), id)
  {
    hide Logged;
    var change := Change(was.id, becomes, RenamedTo);
    LoggedMore(p.changes, [change], id);
    LoggedOne(change, id);
  }

  /** Of a row it has not touched before, a record logs that it moved exactly when it does. */
  lemma RecordLogs(c: Context, rows: Rows, p: Progress, r: Scanned, id: Id)
    requires Snapshot(c.prior, rows) && NoLegacy(rows) && id in rows && id in p.rows
    requires rows[id].native == r.native ==> p.rows[id] == rows[id]
    requires OldName(c, p, r) == Some(rows[id]) ==> p.rows[id] == rows[id]
    ensures LogsIt(p, Record(c, p, r), id)
  {
    hide Logged, LogsIt, Supersede, HasNative, FindRenamed, Merge, Add, Rename, Reobserve;
    ExistingMinted(c.prior, r, rows);
    OldNameFound(c, p, r, rows);
    var minted, row := Minted(r.native, r.digest), Fresh(r, c.clock.text);
    if Aside(c, r) {
      NothingLogged(p, id);
    } else if Existing(c.prior, r).Some? {
      MergeStays(rows[minted], r, c.clock.text);
      ReobserveLogs(p, rows[minted], Merge(rows[minted], r, c.clock.text), id);
    } else if HasNative(c.prior, r.native) {
      AmendLogs(c, rows, p, r.native, minted, id);
      AddLogs(p, Supersede(p, c.prior, r.native, minted), row, id);
    } else if OldName(c, p, r).Some? {
      var was := OldName(c, p, r).value;
      RenameLogs(p, was, minted, id);
      AddLogs(p, Rename(p, was, minted), row.(renamedFrom := Some(was.native)), id);
    } else {
      NothingLogged(p, id);
      AddLogs(p, p, row, id);
    }
  }

  lemma MergeStays(was: Row, r: Scanned, now: string)
    ensures Merge(was, r, now).id == was.id
  {
  }

  lemma NothingLogged(p: Progress, id: Id)
    requires id in p.rows
    ensures LogsIt(p, p, id)
  {
  }

  lemma LoggedNone(id: Id)
    ensures !Logged([], id)
  {
  }

  /** So far the log has the row exactly when it moved. */
  predicate LogOk(rows: Rows, p: Progress, id: Id) {
    id in rows && id in p.rows && (Logged(p.changes, id) <==> p.rows[id].lifecycle != rows[id].lifecycle)
  }

  lemma LogNext(c: Context, rows: Rows, p: Progress, r: Scanned, rest: seq<Scanned>, id: Id)
    requires Snapshot(c.prior, rows) && NoLegacy(rows) && Standing(c, rows, p, [r] + rest) && LogOk(rows, p, id)
    requires r.native in Natives(c.scan.records)
    ensures LogOk(rows, Record(c, p, r), id)
  {
    hide Logged, Record;
    NativesStep(r, rest);
    OldNameFound(c, p, r, rows);
    RecordLogs(c, rows, p, r, id);
    RecordWrites(c, p, r, rows, id);
    if rows[id].native != r.native && OldName(c, p, r) != Some(rows[id]) {
      OtherStays(p, Record(c, p, r), r, OldName(c, p, r), rows, id);
    }
  }

  lemma {:induction false} LogWithin(c: Context, rows: Rows, p: Progress, records: seq<Scanned>, id: Id)
    requires Snapshot(c.prior, rows) && NoLegacy(rows) && Standing(c, rows, p, records) && LogOk(rows, p, id)
    requires UniqueNatives(records) && Natives(records) <= Natives(c.scan.records)
    ensures LogOk(rows, RecordAll(c, p, records), id)
    decreases |records|
  {
    hide Record, LogOk;
    if records != [] {
      UniqueStep(records);
      NativesStep(records[0], records[1..]);
      StandingNext(c, rows, p, records[0], records[1..]);
      LogNext(c, rows, p, records[0], records[1..], id);
      LogWithin(c, rows, Record(c, p, records[0]), records[1..], id);
    }
  }

  lemma {:induction false} RetireLogs(c: Context, p: Progress, prior: seq<Row>, id: Id)
    ensures Logged(RetireAll(c, p, prior).changes, id) <==>
      Logged(p.changes, id) || exists i :: 0 <= i < |prior| && prior[i].id == id && Vanished(c, p.renamedOld, prior[i])
    decreases |prior|
  {
    hide Logged;
    if prior != [] {
      var was, tail := prior[0], prior[1..];
      var change := Change(was.id, was.id, Withdrawn);
      var next := if Vanished(c, p.renamedOld, was) then
          p.(rows := Update(p.rows, Retired(c.scan, was)), changes := p.changes + [change])
        else p;
      LoggedMore(p.changes, [change], id);
      LoggedOne(change, id);
      RetireLogs(c, next, tail, id);
      assert forall i :: 0 <= i < |tail| ==> tail[i] == prior[i + 1];
      assert forall i :: 0 < i < |prior| ==> prior[i] == tail[i - 1];
    }
  }

  /** The log of a run names a row exactly when the run moved its lifecycle. */
  lemma LoggedExact(c: Context, rows: Rows, id: Id)
    requires Snapshot(c.prior, rows) && NoLegacy(rows) && UniqueNatives(c.scan.records) && id in rows
    ensures id in Run(c, rows).rows
    ensures Logged(Run(c, rows).changes, id) <==> Run(c, rows).rows[id].lifecycle != rows[id].lifecycle
  {
    hide RecordAll, RetireAll, Logged;
    var records, start := c.scan.records, Start(rows);
    var p := RecordAll(c, start, records);
    StandingStart(c, rows);
    LoggedNone(id);
    LogWithin(c, rows, start, records, id);
    StandingAfter(c, rows, start, records);
    RetireLogs(c, p, c.prior, id);
    RetireRow(c, p, rows, id);
    var i :| 0 <= i < |c.prior| && c.prior[i] == rows[id];
    RetiredOnce(c, rows, p, id);
  }

  lemma RetiredOnce(c: Context, rows: Rows, p: Progress, id: Id)
    requires Snapshot(c.prior, rows) && NoLegacy(rows) && id in rows && id in p.rows && Standing(c, rows, p, [])
    ensures (exists i :: 0 <= i < |c.prior| && c.prior[i].id == id && Vanished(c, p.renamedOld, c.prior[i])) <==> Vanished(c, p.renamedOld, rows[id])
    ensures Vanished(c, p.renamedOld, rows[id]) ==> p.rows[id] == rows[id]
  {
    var i :| 0 <= i < |c.prior| && c.prior[i] == rows[id];
    assert c.prior[i].id == id;
  }
}
