/** Ingesting over and over: what every history of runs keeps, and how many rows of one native id
    can be current. */
module IngestHistory {
  import opened Wrappers
  import opened Ingest
  import opened IngestLaws

  // ----- any number of runs -----

  lemma {:induction false} SupersedeHonest(p: Progress, prior: seq<Row>, native: string, becomes: Id, rows: Rows)
    requires Honest(rows) && Honest(p.rows) && forall i :: 0 <= i < |prior| ==> prior[i].id in rows && rows[prior[i].id] == prior[i]
    ensures Honest(Supersede(p, prior, native, becomes).rows)
    decreases |prior|
  {
    if prior != [] {
      var was := prior[0];
      var next := if was.native == native && was.lifecycle == Observed then
          p.(rows := Update(p.rows, was.(lifecycle := Superseded)), changes := p.changes + [Change(was.id, becomes, Amended)])
        else p;
      SupersedeHonest(next, prior[1..], native, becomes, rows);
    }
  }

  lemma AddNewHonest(c: Context, p: Progress, r: Scanned, rows: Rows)
    requires Snapshot(c.prior, rows) && Honest(rows) && Honest(p.rows) && !Aside(c, r) && Existing(c.prior, r).None?
    ensures Honest(AddNew(c, p, r).rows)
  {
    hide Supersede, FindRenamed, HasNative;
    SupersedeHonest(p, c.prior, r.native, Minted(r.native, r.digest), rows);
    OldNameFound(c, p, r, rows);
  }

  lemma RecordHonest(c: Context, p: Progress, r: Scanned, rows: Rows)
    requires Snapshot(c.prior, rows) && Honest(rows) && Honest(p.rows)
    ensures Honest(Record(c, p, r).rows)
  {
    if !Aside(c, r) {
      if Existing(c.prior, r).Some? {
        ExistingFound(c.prior, r, rows);
      } else {
        AddNewHonest(c, p, r, rows);
      }
    }
  }

  lemma {:induction false} RecordsHonest(c: Context, p: Progress, records: seq<Scanned>, rows: Rows)
    requires Snapshot(c.prior, rows) && Honest(rows) && Honest(p.rows)
    ensures Honest(RecordAll(c, p, records).rows)
    decreases |records|
  {
    if records != [] {
      RecordHonest(c, p, records[0], rows);
      RecordsHonest(c, Record(c, p, records[0]), records[1..], rows);
    }
  }

  lemma {:induction false} RetireHonest(c: Context, p: Progress, prior: seq<Row>, rows: Rows)
    requires Honest(rows) && Honest(p.rows) && forall i :: 0 <= i < |prior| ==> prior[i].id in rows && rows[prior[i].id] == prior[i]
    ensures Honest(RetireAll(c, p, prior).rows)
    decreases |prior|
  {
    if prior != [] {
      var was := prior[0];
      var next := if Vanished(c, p.renamedOld, was) then
          p.(rows := Update(p.rows, Retired(c.scan, was)), changes := p.changes + [Change(was.id, was.id, Withdrawn)])
        else p;
      RetireHonest(c, next, prior[1..], rows);
    }
  }

  lemma RunHonest(c: Context, rows: Rows)
    requires Snapshot(c.prior, rows) && Honest(rows)
    ensures Honest(Run(c, rows).rows)
  {
    RecordsHonest(c, Start(rows), c.scan.records, rows);
    RetireHonest(c, RecordAll(c, Start(rows), c.scan.records), c.prior, rows);
  }

  /** Runs one after another, each reading what the one before left. */
  ghost predicate History(runs: seq<Context>, rows: Rows, end: Rows)
    decreases |runs|
  {
    if runs == [] then end == rows
    else Snapshot(runs[0].prior, rows) && History(runs[1..], Run(runs[0], rows).rows, end)
  }

  /** No history of runs, over any scans, deletes a row, changes what it identifies or brings a
      superseded or renamed row back. */
  lemma {:induction false} HistoryKeepsRows(runs: seq<Context>, rows: Rows, end: Rows, id: Id)
    requires Honest(rows) && History(runs, rows, end) && id in rows
    ensures id in end && end[id].id == id && end[id].native == rows[id].native && end[id].digest == rows[id].digest
    ensures Terminal(rows[id].lifecycle) ==> end[id].lifecycle == rows[id].lifecycle
    decreases |runs|
  {
    if runs != [] {
      RunHonest(runs[0], rows);
      RunKeepsRows(runs[0], rows, id);
      HistoryKeepsRows(runs[1..], Run(runs[0], rows).rows, end, id);
    }
  }

  // ----- which row of a native id is current -----

  predicate Revivable(l: Lifecycle) {
    l == Observed || l == Retracted || l == Absent || l == Rewritten
  }

  /** Which rows of a scanned, present native id a run leaves observed: the scanned one, unless it
      ended before; and the ones observed before, when the scanned one was already known. */
  lemma ObservedAfter(c: Context, rows: Rows, r: Scanned, id: Id)
    requires Snapshot(c.prior, rows) && NoLegacy(rows) && UniqueNatives(c.scan.records)
    requires r in c.scan.records && r.present && !Aside(c, r)
    requires id in Run(c, rows).rows && id.Minted? && id.native == r.native
    ensures var scanned := Minted(r.native, r.digest);
      Run(c, rows).rows[id].lifecycle == Observed <==>
        if id == scanned then scanned in rows ==> Revivable(rows[scanned].lifecycle)
        else scanned in rows && id in rows && rows[id].lifecycle == Observed
  {
    var records := c.scan.records;
    StandingStart(c, rows);
    StandingAfter(c, rows, Start(rows), records);
    RetireWrites(c, RecordAll(c, Start(rows), records), c.prior, id);
    RetireRow(c, RecordAll(c, Start(rows), records), rows, id);
    ObservedWithin(c, rows, Start(rows), records, r, id);
  }

  lemma {:induction false} ObservedWithin(c: Context, rows: Rows, p: Progress, records: seq<Scanned>, r: Scanned, id: Id)
    requires Snapshot(c.prior, rows) && NoLegacy(rows) && Standing(c, rows, p, records)
    requires UniqueNatives(records) && Natives(records) <= Natives(c.scan.records)
    requires r in records && r.present && !Aside(c, r)
    requires id in RecordAll(c, p, records).rows && id.Minted? && id.native == r.native
    ensures var scanned := Minted(r.native, r.digest);
      RecordAll(c, p, records).rows[id].lifecycle == Observed <==>
        if id == scanned then scanned in rows ==> Revivable(rows[scanned].lifecycle)
        else scanned in rows && id in rows && rows[id].lifecycle == Observed
    decreases |records|
  {
    UniqueStep(records);
    NativesStep(records[0], records[1..]);
    var next := Record(c, p, records[0]);
    StandingNext(c, rows, p, records[0], records[1..]);
    if r == records[0] {
      StandingAfter(c, rows, next, records[1..]);
      if id !in next.rows {
        NotAddedLater(c, rows, next, records[1..], id);
        assert false;
      }
      OthersLeave(c, rows, next, records[1..], id);
      ObservedNow(c, rows, p, r, records[1..], id);
    } else {
      ObservedWithin(c, rows, next, records[1..], r, id);
    }
  }

  lemma {:induction false} NotAddedLater(c: Context, rows: Rows, p: Progress, records: seq<Scanned>, id: Id)
    requires Snapshot(c.prior, rows) && Honest(rows) && id !in p.rows && id.Minted? && id.native !in Natives(records)
    ensures id !in RecordAll(c, p, records).rows
    decreases |records|
  {
    if records != [] {
      assert records == [records[0]] + records[1..];
      NativesStep(records[0], records[1..]);
      RecordWrites(c, p, records[0], rows, id);
      NotAddedLater(c, rows, Record(c, p, records[0]), records[1..], id);
    }
  }

  lemma ObservedNow(c: Context, rows: Rows, p: Progress, r: Scanned, rest: seq<Scanned>, id: Id)
    requires Snapshot(c.prior, rows) && NoLegacy(rows) && Standing(c, rows, p, [r] + rest)
    requires r.present && !Aside(c, r) && r.native in Natives(c.scan.records)
    requires id in Record(c, p, r).rows && id.Minted? && id.native == r.native
    ensures var scanned := Minted(r.native, r.digest);
      Record(c, p, r).rows[id].lifecycle == Observed <==>
        if id == scanned then scanned in rows ==> Revivable(rows[scanned].lifecycle)
        else scanned in rows && id in rows && rows[id].lifecycle == Observed
  {
    NativesStep(r, rest);
    ExistingMinted(c.prior, r, rows);
    RecordWrites(c, p, r, rows, id);
    if Existing(c.prior, r).None? {
      MintedIsNew(c, p, r, rows);
      if id != Minted(r.native, r.digest) {
        OtherEnds(c, rows, p, r, id);
      }
    }
  }

  /** A new content ends the other ones of its native id. */
  lemma OtherEnds(c: Context, rows: Rows, p: Progress, r: Scanned, id: Id)
    requires Snapshot(c.prior, rows) && NoLegacy(rows) && !Aside(c, r) && Existing(c.prior, r).None?
    requires id in rows && id in p.rows && p.rows[id] == rows[id] && rows[id].native == r.native && id != Minted(r.native, r.digest)
    ensures id in Record(c, p, r).rows && Record(c, p, r).rows[id].lifecycle != Observed
  {
    SupersededAll(p, c.prior, r.native, Minted(r.native, r.digest), rows, id);
    var i :| 0 <= i < |c.prior| && c.prior[i] == rows[id];
    assert HasNative(c.prior, r.native);
  }

  /** Superseding ends every observed row of the native id. */
  lemma {:induction false} SupersededAll(p: Progress, prior: seq<Row>, native: string, becomes: Id, rows: Rows, id: Id)
    requires DistinctIds(prior) && forall i :: 0 <= i < |prior| ==> prior[i].id in rows && rows[prior[i].id] == prior[i]
    requires id in p.rows && id in rows && rows[id].native == native
    ensures var q := Supersede(p, prior, native, becomes);
      && id in q.rows
      && ((exists i :: 0 <= i < |prior| && prior[i].id == id) && rows[id].lifecycle == Observed ==>
           q.rows[id] == rows[id].(lifecycle := Superseded))
      && (!((exists i :: 0 <= i < |prior| && prior[i].id == id) && rows[id].lifecycle == Observed) ==> q.rows[id] == p.rows[id])
    decreases |prior|
  {
    if prior != [] {
      var was, tail := prior[0], prior[1..];
      var next := if was.native == native && was.lifecycle == Observed then
          p.(rows := Update(p.rows, was.(lifecycle := Superseded)), changes := p.changes + [Change(was.id, becomes, Amended)])
        else p;
      assert forall i :: 0 <= i < |tail| ==> tail[i] == prior[i + 1];
      assert forall i :: 0 < i < |prior| ==> prior[i] == tail[i - 1];
      SupersededAll(next, tail, native, becomes, rows, id);
    }
  }

  predicate Current(row: Row, native: string) {
    row.native == native && row.lifecycle == Observed
  }

  predicate AtMostOneObserved(rows: Rows, native: string) {
    forall a, b :: a in rows && b in rows && Current(rows[a], native) && Current(rows[b], native) ==> a == b
  }

  /** A run leaves at most one current row of a scanned native id exactly when the scanned content
      is new, or had ended, or no other content of it was current. */
  lemma OneCurrentExact(c: Context, rows: Rows, r: Scanned)
    requires Snapshot(c.prior, rows) && NoLegacy(rows) && UniqueNatives(c.scan.records)
    requires r in c.scan.records && r.present && !Aside(c, r) && AtMostOneObserved(rows, r.native)
    ensures var scanned := Minted(r.native, r.digest);
      AtMostOneObserved(Run(c, rows).rows, r.native) <==>
        (scanned in rows && Revivable(rows[scanned].lifecycle) ==>
          forall id :: id in rows && rows[id].native == r.native && rows[id].lifecycle == Observed ==> id == scanned)
  {
    var scanned := Minted(r.native, r.digest);
    var q := Run(c, rows).rows;
    RunSettles(c, rows);
    forall id | id in rows ensures id in q && q[id].native == rows[id].native {
      RunKeepsRows(c, rows, id);
    }
    forall id | id in q && q[id].native == r.native
      ensures q[id].lifecycle == Observed <==>
        if id == scanned then scanned in rows ==> Revivable(rows[scanned].lifecycle)
        else scanned in rows && id in rows && rows[id].lifecycle == Observed
    {
      ObservedAfter(c, rows, r, id);
    }
    assert IngestLaws.Current(c, q, r);
  }

  // ----- a history that leaves two -----

  function Doc(digest: string): Scanned {
    Scanned("doc", digest, true, None, None, false, true, "unit", "main", None, None, "reading", "kept")
  }

  function Holding(records: seq<Scanned>): Scan {
    Scan(records, {"unit"}, map[], true)
  }

  const A := Minted("doc", "a")
  const B := Minted("doc", "b")

  function DocRow(digest: string, l: Lifecycle, now: string): Row {
    Row(Minted("doc", digest), "doc", digest, l, now, None, Some("unit"), None, None, Some("main"), "reading", "kept")
  }

  predicate SingleRecords(runs: seq<Context>) {
    forall i :: 0 <= i < |runs| ==> |runs[i].scan.records| <= 1
  }

  lemma FirstRun(now: string) returns (c: Context)
    ensures c.scan == Holding([Doc("a")]) && Snapshot(c.prior, map[]) && Run(c, map[]).rows == map[A := DocRow("a", Observed, now)]
  {
    c := Context([], Holding([Doc("a")]), Clock(now, 0, 0), {});
    assert [Doc("a")][1..] == [];
  }

  lemma GoneRun(now: string, was: string) returns (c: Context)
    ensures c.scan == Holding([])
    ensures Snapshot(c.prior, map[A := DocRow("a", Observed, was)])
    ensures Run(c, map[A := DocRow("a", Observed, was)]).rows == map[A := DocRow("a", Retracted, was)]
  {
    c := Context([DocRow("a", Observed, was)], Holding([]), Clock(now, 0, 0), {});
    assert c.prior[1..] == [];
    var rows := map[A := DocRow("a", Observed, was)];
    RetireWrites(c, Start(rows), c.prior, A);
  }

  lemma OtherRun(now: string, was: string) returns (c: Context)
    ensures c.scan == Holding([Doc("b")])
    ensures Snapshot(c.prior, map[A := DocRow("a", Retracted, was)])
    ensures Run(c, map[A := DocRow("a", Retracted, was)]).rows == map[A := DocRow("a", Retracted, was), B := DocRow("b", Observed, now)]
  {
    c := Context([DocRow("a", Retracted, was)], Holding([Doc("b")]), Clock(now, 0, 0), {});
    assert c.prior[1..] == [] && [Doc("b")][1..] == [];
    assert "a"[0] != "b"[0];
    assert c.prior[0].native == "doc" && Doc("b") in c.scan.records;
    var rows := map[A := DocRow("a", Retracted, was)];
    ExistingMinted(c.prior, Doc("b"), rows);
    assert Supersede(Start(rows), c.prior, "doc", B) == Start(rows);
    NothingVanished(c, Record(c, Start(rows), Doc("b")), c.prior);
  }

  lemma BackRun(now: string, was: string, between: string) returns (c: Context)
    ensures c.scan == Holding([Doc("a")])
    ensures Snapshot(c.prior, map[A := DocRow("a", Retracted, was), B := DocRow("b", Observed, between)])
    ensures Run(c, map[A := DocRow("a", Retracted, was), B := DocRow("b", Observed, between)]).rows
         == map[A := DocRow("a", Observed, now), B := DocRow("b", Observed, between)]
  {
    c := Context([DocRow("a", Retracted, was), DocRow("b", Observed, between)], Holding([Doc("a")]), Clock(now, 0, 0), {});
    assert "a"[0] != "b"[0];
    assert [Doc("a")][1..] == [] && c.prior[1..] == [DocRow("b", Observed, between)];
    assert Doc("a") in c.scan.records && "doc" in Natives(c.scan.records);
    var p := RecordAll(c, Start(map[A := c.prior[0], B := c.prior[1]]), c.scan.records);
    NothingVanished(c, p, c.prior);
  }

  lemma HistoryStep(c: Context, rest: seq<Context>, rows: Rows, end: Rows)
    requires Snapshot(c.prior, rows) && History(rest, Run(c, rows).rows, end)
    ensures History([c] + rest, rows, end)
  {
  }

  lemma FourSteps(c0: Context, c1: Context, c2: Context, c3: Context, s0: Rows, s1: Rows, s2: Rows, s3: Rows, s4: Rows)
    requires Snapshot(c0.prior, s0) && Run(c0, s0).rows == s1 && Snapshot(c1.prior, s1) && Run(c1, s1).rows == s2
    requires Snapshot(c2.prior, s2) && Run(c2, s2).rows == s3 && Snapshot(c3.prior, s3) && Run(c3, s3).rows == s4
    ensures History([c0] + ([c1] + ([c2] + ([c3] + []))), s0, s4)
    ensures |c0.scan.records| <= 1 && |c1.scan.records| <= 1 && |c2.scan.records| <= 1 && |c3.scan.records| <= 1 ==>
              SingleRecords([c0] + ([c1] + ([c2] + ([c3] + []))))
  {
    hide Run;
    HistoryStep(c3, [], s3, s4);
    HistoryStep(c2, [c3] + [], s2, s4);
    HistoryStep(c1, [c2] + ([c3] + []), s1, s4);
    HistoryStep(c0, [c1] + ([c2] + ([c3] + [])), s0, s4);
  }

  lemma BothCurrent(v: string, w: string)
    ensures !AtMostOneObserved(map[A := DocRow("a", Observed, w), B := DocRow("b", Observed, v)], "doc")
  {
    var end := map[A := DocRow("a", Observed, w), B := DocRow("b", Observed, v)];
    assert "a"[0] != "b"[0];
    assert Current(end[A], "doc") && Current(end[B], "doc") && A != B;
  }

  /** A document read as A, gone, read as B, then as A again: both stay observed. */
  lemma TwoCurrent(t: string, u: string, v: string, w: string)
    ensures exists runs: seq<Context>, end: Rows ::
      History(runs, map[], end) && SingleRecords(runs) && !AtMostOneObserved(end, "doc")
  {
    hide Run;
    var c0 := FirstRun(t);
    var c1 := GoneRun(u, t);
    var c2 := OtherRun(v, t);
    var c3 := BackRun(w, t, v);
    var end := map[A := DocRow("a", Observed, w), B := DocRow("b", Observed, v)];
    FourSteps(c0, c1, c2, c3, map[], map[A := DocRow("a", Observed, t)], map[A := DocRow("a", Retracted, t)],
              map[A := DocRow("a", Retracted, t), B := DocRow("b", Observed, v)], end);
    BothCurrent(v, w);
  }

  // ----- a claim that comes due -----

  /** By how many milliseconds a claim may be off: five minutes and the part of a second that is cut off,
      and the run's own move of the clock in the one direction. */
  function Slack(move: int): int {
    301_000 + (if move > 0 then 1000 * move else 0)
  }

  /** A claim is skewed from five minutes and one whole second on, either way; the bound ahead is wider by
      what the run moved its clock back, and the bound behind by what it moved it on. */
  lemma SkewExact(clock: Clock, claim: int)
    ensures Skewed(clock, claim) <==>
      claim - clock.instant >= Slack(-clock.offset) || clock.instant - claim >= Slack(clock.offset)
  {
    var millis := claim - clock.instant;
    var ahead := 300 + (if clock.offset < 0 then -clock.offset else 0);
    var behind := 300 + (if clock.offset > 0 then clock.offset else 0);
    if millis >= 0 {
      assert millis / 1000 > ahead <==> millis >= 1000 * (ahead + 1);
    } else {
      assert (-millis) / 1000 > behind <==> -millis >= 1000 * (behind + 1);
    }
  }

  /** What sets a record aside, on its own fields: a readable claim out of the bounds, a revoked signer of a
      receipt of the reducer's own, or a row outside the canonical rule. */
  lemma AsideExact(c: Context, r: Scanned)
    ensures Aside(c, r) <==>
      || (exists claim :: r.claim == Some(claim) &&
            (claim - c.clock.instant >= Slack(-c.clock.offset) || c.clock.instant - claim >= Slack(c.clock.offset)))
      || (exists signer :: r.signer == Some(signer) && signer in c.revoked && r.reducerOwned)
      || !r.canonical
  {
    if r.claim.Some? {
      SkewExact(c.clock, r.claim.value);
    }
  }

  /** A run of one record over no rows. */
  lemma OneRecord(c: Context, r: Scanned)
    requires c.prior == [] && c.scan.records == [r]
    ensures Run(c, map[]).rows == Record(c, Start(map[]), r).rows && Run(c, map[]).inserted == Record(c, Start(map[]), r).inserted
  {
    assert [r][1..] == [];
    assert RecordAll(c, Start(map[]), [r]) == RecordAll(c, Record(c, Start(map[]), r), []);
  }

  /** A record whose receipt claims an instant six minutes ahead is set aside; ingested again two
      minutes later, by a run of the same scan, it is inserted. */
  lemma AClaimComesDue(t: int, text: string) returns (first: Context, second: Context)
    ensures first.clock.instant == t && second.clock.instant == t + 120_000 && second.scan == first.scan
    ensures Snapshot(first.prior, map[]) && Run(first, map[]).rows == map[] && Run(first, map[]).inserted == 0
    ensures Snapshot(second.prior, map[]) && Run(second, map[]).inserted == 1
  {
    var r := Doc("a").(claim := Some(t + 360_000));
    first := Context([], Holding([r]), Clock(text, t, 0), {});
    second := first.(clock := Clock(text, t + 120_000, 0));
    SkewExact(first.clock, t + 360_000);
    SkewExact(second.clock, t + 360_000);
    assert Aside(first, r) && !Aside(second, r);
    OneRecord(first, r);
    OneRecord(second, r);
  }
}
