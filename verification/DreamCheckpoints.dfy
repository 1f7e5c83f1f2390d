/** Compacting the checkpoint ledger: what re-encoding conserves, and when a second pass is a no-op. */
module DreamCheckpoints {
  import opened Wrappers
  import opened Utf8
  import opened KeyOrder
  import opened JsonValue
  import opened JsonNormal
  import opened LedgerIdentity
  import opened DreamFilter
  import opened CheckpointRecords
  import JsonParser
  import JsonStrict
  import JsonWriter
  import TextRule

  // ----- listed receipts -----

  /** No receipt among `pairs` is listed twice, or was settled before. */
  predicate Fresh(pairs: seq<Receipt>, settled: set<Receipt>) {
    pairs == [] || (pairs[0] !in settled && Fresh(pairs[1..], settled + {pairs[0]}))
  }

  lemma {:induction false} FreshExact(pairs: seq<Receipt>, settled: set<Receipt>)
    ensures Fresh(pairs, settled) <==>
      && (forall i :: 0 <= i < |pairs| ==> pairs[i] !in settled)
      && (forall i, j :: 0 <= i < j < |pairs| ==> pairs[i] != pairs[j])
  {
    if pairs != [] {
      var head, tail := pairs[0], pairs[1..];
      FreshExact(tail, settled + {head});
      assert forall i :: 0 <= i < |tail| ==> tail[i] == pairs[i + 1];
      if Fresh(pairs, settled) {
        forall i, j | 0 <= i < j < |pairs| ensures pairs[i] != pairs[j] {
          assert pairs[j] == tail[j - 1];
          if i > 0 {
            assert pairs[i] == tail[i - 1];
          }
        }
        forall i | 0 <= i < |pairs| ensures pairs[i] !in settled {
          if i > 0 {
            assert pairs[i] == tail[i - 1];
          }
        }
      } else if pairs[0] !in settled {
        if i :| 0 <= i < |tail| && tail[i] in settled + {head} {
          assert pairs[i + 1] in settled + {head};
        } else {
          var i, j :| 0 <= i < j < |tail| && tail[i] == tail[j];
          assert pairs[i + 1] == pairs[j + 1];
        }
      }
    }
  }

  lemma {:induction false} FreshConcat(a: seq<Receipt>, b: seq<Receipt>, settled: set<Receipt>)
    ensures Fresh(a + b, settled) <==> Fresh(a, settled) && Fresh(b, settled + Elements(a))
    decreases |a|
  {
    if a == [] {
      assert a + b == b && settled + Elements(a) == settled;
    } else {
      assert (a + b)[1..] == a[1..] + b;
      FreshConcat(a[1..], b, settled + {a[0]});
      ElementsStep(a);
      assert settled + {a[0]} + Elements(a[1..]) == settled + Elements(a);
    }
  }

  lemma ElementsStep<T>(a: seq<T>)
    requires a != []
    ensures Elements(a) == {a[0]} + Elements(a[1..])
  {
  }

  lemma ElementsConcat<T>(a: seq<T>, b: seq<T>)
    ensures Elements(a + b) == Elements(a) + Elements(b)
  {
  }

  /** Nothing is taken off a checkpoint exactly when what it lists is fresh. */
  lemma {:induction false} KeptWhole(session: string, admissions: seq<Value>, settled: set<Receipt>)
    ensures |Kept(session, admissions, settled)| == |admissions| <==> Fresh(Pairs(session, admissions), settled)
    ensures |Kept(session, admissions, settled)| == |admissions| ==> Kept(session, admissions, settled) == admissions
    decreases |admissions|
  {
    if admissions != [] {
      var tail := admissions[1..];
      assert admissions == [admissions[0]] + tail;
      match SettledReceipt(admissions[0])
      case None => KeptWhole(session, tail, settled);
      case Some(receipt) =>
        KeptWhole(session, tail, settled + {(session, receipt)});
        assert ([(session, receipt)] + Pairs(session, tail))[1..] == Pairs(session, tail);
    }
  }

  /** What stays listed is fresh, and with what was settled it is all that was listed. */
  lemma {:induction false} KeptIsFresh(session: string, admissions: seq<Value>, settled: set<Receipt>)
    ensures var kept := Pairs(session, Kept(session, admissions, settled));
      Fresh(kept, settled) && settled + Elements(kept) == settled + Elements(Pairs(session, admissions))
    decreases |admissions|
  {
    if admissions != [] {
      var head, tail := admissions[0], admissions[1..];
      match SettledReceipt(head)
      case None =>
        KeptIsFresh(session, tail, settled);
        var rest := Kept(session, tail, settled);
        assert ([head] + rest)[1..] == rest;
      case Some(receipt) =>
        var p := (session, receipt);
        ElementsStep([p] + Pairs(session, tail));
        assert ([p] + Pairs(session, tail))[1..] == Pairs(session, tail);
        if p in settled {
          KeptIsFresh(session, tail, settled);
        } else {
          KeptIsFresh(session, tail, settled + {p});
          var rest := Kept(session, tail, settled + {p});
          assert ([head] + rest)[1..] == rest;
          assert ([p] + Pairs(session, rest))[1..] == Pairs(session, rest);
          ElementsStep([p] + Pairs(session, rest));
        }
    }
  }

  lemma {:induction false} KeptAreAdmissions(session: string, admissions: seq<Value>, settled: set<Receipt>)
    ensures forall v :: v in Kept(session, admissions, settled) ==> v in admissions
    decreases |admissions|
  {
    if admissions != [] {
      var tail := admissions[1..];
      match SettledReceipt(admissions[0])
      case None => KeptAreAdmissions(session, tail, settled);
      case Some(receipt) =>
        KeptAreAdmissions(session, tail, settled);
        KeptAreAdmissions(session, tail, settled + {(session, receipt)});
    }
  }

  function Unsettled(admissions: seq<Value>): seq<Value> {
    if admissions == [] then []
    else (if SettledReceipt(admissions[0]).None? then [admissions[0]] else []) + Unsettled(admissions[1..])
  }

  /** Every admission that settled nothing stays listed, in order. */
  lemma {:induction false} UnsettledStay(session: string, admissions: seq<Value>, settled: set<Receipt>)
    ensures Unsettled(Kept(session, admissions, settled)) == Unsettled(admissions)
    decreases |admissions|
  {
    if admissions != [] {
      var head, tail := admissions[0], admissions[1..];
      match SettledReceipt(head)
      case None =>
        UnsettledStay(session, tail, settled);
        assert ([head] + Kept(session, tail, settled))[1..] == Kept(session, tail, settled);
      case Some(receipt) =>
        if (session, receipt) in settled {
          UnsettledStay(session, tail, settled);
        } else {
          UnsettledStay(session, tail, settled + {(session, receipt)});
          var rest := Kept(session, tail, settled + {(session, receipt)});
          assert ([head] + rest)[1..] == rest;
        }
    }
  }

  // ----- one record -----

  lemma RecountParts(record: Record, kept: seq<Value>, count: nat)
    ensures var r := Recount(record, kept, count);
      SessionOf(r) == SessionOf(record) && AdmissionsOf(r) == kept && CountOf(r) == count
  {
    var once := JsonParser.Put(record, Member("admissions", Arr(kept)));
    var settled := Member("admissions_settled", Int(count));
    GetPut(record, Member("admissions", Arr(kept)), "session_id");
    GetPut(record, Member("admissions", Arr(kept)), "admissions");
    GetPut(once, settled, "session_id");
    GetPut(once, settled, "admissions");
    GetPut(once, settled, "admissions_settled");
  }

  lemma RelabelParts(d: Dreamer, record: Record)
    requires Relabel(d, record).Some?
    ensures var r := Relabel(d, record).value;
      && SessionOf(r) == SessionOf(record) && AdmissionsOf(r) == AdmissionsOf(record) && CountOf(r) == CountOf(record)
      && GetText(r, "checkpoint_id") == Some(CheckpointId(d, Decision(record)))
      && Decision(r) == Decision(record)
  {
    var id := Member("checkpoint_id", Str(CheckpointId(d, Decision(record))));
    GetPut(record, id, "session_id");
    GetPut(record, id, "admissions");
    GetPut(record, id, "admissions_settled");
    GetPut(record, id, "checkpoint_id");
    GetPut(record, id, "admission_failures");
    GetPut(record, id, "admissions_held");
    GetPut(record, id, "personal_fact_count");
    GetPut(record, id, "sweep");
  }

  lemma RecountedParts(record: Record, settled: set<Receipt>)
    ensures var r := Recounted(record, settled); var kept := Kept(SessionOf(record), AdmissionsOf(record), settled);
      && SessionOf(r) == SessionOf(record) && AdmissionsOf(r) == kept
      && |kept| + CountOf(r) == |AdmissionsOf(record)| + CountOf(record)
  {
    var admissions := AdmissionsOf(record);
    var kept := Kept(SessionOf(record), admissions, settled);
    RecountParts(record, kept, CountOf(record) + |admissions| - |kept|);
  }

  lemma ListedParts(r: Record, session: string, admissions: seq<Value>)
    requires SessionOf(r) == session && AdmissionsOf(r) == admissions
    ensures Listed(r) == Pairs(session, admissions)
  {
  }

  /** Re-encoding a checkpoint conserves its admissions: what is no longer listed is counted, what
      stays listed was not settled before, and what settled nothing stays. */
  lemma ReencodingConserves(d: Dreamer, record: Record, settled: set<Receipt>)
    requires Reencode(d, record, settled).Some?
    ensures var r := Reencode(d, record, settled).value;
      && SessionOf(r) == SessionOf(record)
      && |AdmissionsOf(r)| + CountOf(r) == |AdmissionsOf(record)| + CountOf(record)
      && Unsettled(AdmissionsOf(r)) == Unsettled(AdmissionsOf(record))
      && Fresh(Listed(r), settled)
      && settled + Elements(Listed(r)) == settled + Elements(Listed(record))
      && GetText(r, "checkpoint_id") == Some(CheckpointId(d, Decision(r)))
  {
    var session, admissions := SessionOf(record), AdmissionsOf(record);
    RecountedParts(record, settled);
    RelabelParts(d, Recounted(record, settled));
    UnsettledStay(session, admissions, settled);
    KeptIsFresh(session, admissions, settled);
    ListedParts(Reencode(d, record, settled).value, session, Kept(session, admissions, settled));
    ListedParts(record, session, admissions);
  }

  /** A checkpoint that decided nothing new listed nothing new. */
  lemma DroppedListsNothingNew(d: Dreamer, record: Record, settled: set<Receipt>)
    requires Reencode(d, record, settled).None?
    ensures Elements(Listed(record)) <= settled
  {
    var session, admissions := SessionOf(record), AdmissionsOf(record);
    var recounted := Recounted(record, settled);
    RecountedParts(record, settled);
    DecisionParts(recounted);
    KeptIsFresh(session, admissions, settled);
    NoneKept(recounted);
    ListedParts(record, session, admissions);
    assert Kept(session, admissions, settled) == [];
  }

  lemma NoneKept(record: Record)
    requires Nothing(record)
    ensures AdmissionsOf(record) == []
  {
  }

  // ----- writing a record and reading it back -----

  /** The count of a re-encoded checkpoint is an integer the canonical rule allows. */
  predicate CountFits(record: Record, settled: set<Receipt>) {
    CountOf(record) + |AdmissionsOf(record)| - |Kept(SessionOf(record), AdmissionsOf(record), settled)| <= JSON_INTEGER_BOUND
  }

  /** SHA-256 in hexadecimal, as an ideal hash. */
  ghost predicate HashLaws(hash: string -> string) {
    && (forall text :: Plain(hash(text)))
    && (forall s, t :: hash(s) == hash(t) ==> s == t)
  }

  /** What a compaction assumes of the readers and the hash it runs with. */
  ghost predicate Lawful(d: Dreamer) {
    && NfcLaws(d.codec.nfc) && PlainLaws(d.codec.nfc) && HashLaws(d.hash)
    && d.checkpoints && d.spec == Spec(["checkpoint_id"], ["session_id"])
    && ReadsCanonical(d.codec)
  }

  /** A canonical line reads back as the record's normal form. */
  ghost predicate ReadsCanonical(c: Codec) {
    forall record :: WellFormed(Obj(record), c.nfc) ==>
      c.parse(LineOf(record, c.nfc)) == Some(NormalRecord(record, c.nfc))
  }

  function LineOf(record: Record, nfc: string -> string): Bytes {
    Encode(JsonWriter.Canonical(Obj(record), nfc))
  }

  lemma KeptWellFormed(record: Record, settled: set<Receipt>, nfc: string -> string)
    requires WellFormed(Obj(record), nfc)
    ensures WellFormed(Arr(Kept(SessionOf(record), AdmissionsOf(record), settled)), nfc)
  {
    var session, admissions := SessionOf(record), AdmissionsOf(record);
    var kept := Kept(session, admissions, settled);
    AdmissionsWellFormed(record, nfc);
    KeptAreAdmissions(session, admissions, settled);
    forall i | 0 <= i < |kept| ensures WellFormed(kept[i], nfc) {
      assert kept[i] in admissions;
    }
  }

  lemma RecountedWellFormed(record: Record, settled: set<Receipt>, nfc: string -> string)
    requires PlainLaws(nfc) && WellFormed(Obj(record), nfc) && CountFits(record, settled)
    ensures WellFormed(Obj(Recounted(record, settled)), nfc)
  {
    hide Kept, Get, JsonParser.Put;
    var admissions := AdmissionsOf(record);
    var kept := Kept(SessionOf(record), admissions, settled);
    PlainFields();
    KeptWellFormed(record, settled, nfc);
    PutWellFormed(record, Member("admissions", Arr(kept)), nfc);
    var once := JsonParser.Put(record, Member("admissions", Arr(kept)));
    PutWellFormed(once, Member("admissions_settled", Int(CountOf(record) + |admissions| - |kept|)), nfc);
  }

  lemma PlainId(d: Dreamer, decision: Record)
    requires HashLaws(d.hash)
    ensures Plain(CheckpointId(d, decision))
  {
  }

  /** A re-encoded checkpoint counts what it no longer lists. */
  lemma ReencodedCount(d: Dreamer, record: Record, settled: set<Receipt>)
    requires Reencode(d, record, settled).Some?
    ensures Get(Reencode(d, record, settled).value, "admissions_settled") ==
            Some(Int(CountOf(record) + |AdmissionsOf(record)| - |Kept(SessionOf(record), AdmissionsOf(record), settled)|))
  {
    var kept := Kept(SessionOf(record), AdmissionsOf(record), settled);
    var once := JsonParser.Put(record, Member("admissions", Arr(kept)));
    var count := Member("admissions_settled", Int(CountOf(record) + |AdmissionsOf(record)| - |kept|));
    var recounted := Recounted(record, settled);
    GetPut(once, count, "admissions_settled");
    GetPut(recounted, Member("checkpoint_id", Str(CheckpointId(d, Decision(recounted)))), "admissions_settled");
  }

  /** A well-formed checkpoint can be written back exactly when its count fits. */
  lemma ReencodedWellFormed(d: Dreamer, record: Record, settled: set<Receipt>)
    requires PlainLaws(d.codec.nfc) && HashLaws(d.hash) && WellFormed(Obj(record), d.codec.nfc)
    requires Reencode(d, record, settled).Some?
    ensures WellFormed(Obj(Reencode(d, record, settled).value), d.codec.nfc) <==> CountFits(record, settled)
  {
    hide Kept, Get, JsonParser.Put;
    var recounted, r := Recounted(record, settled), Reencode(d, record, settled).value;
    if CountFits(record, settled) {
      RecountedWellFormed(record, settled, d.codec.nfc);
      PlainFields();
      PlainId(d, Decision(recounted));
      PlainAllowed(CheckpointId(d, Decision(recounted)));
      PutWellFormed(recounted, Member("checkpoint_id", Str(CheckpointId(d, Decision(recounted)))), d.codec.nfc);
    } else if WellFormed(Obj(r), d.codec.nfc) {
      ReencodedCount(d, record, settled);
      GetWellFormed(r, "admissions_settled", d.codec.nfc);
    }
  }

  // ----- what makes a record unwritable -----

  /** `b` has the members of `a`, and allowed values wherever `a` has. */
  ghost predicate NoWorse(a: Record, b: Record, nfc: string -> string) {
    |a| == |b| && forall i :: 0 <= i < |a| ==> a[i].key == b[i].key && (WellFormed(a[i].value, nfc) ==> WellFormed(b[i].value, nfc))
  }

  lemma NoWorseWellFormed(a: Record, b: Record, nfc: string -> string)
    requires NoWorse(a, b, nfc) && WellFormed(Obj(a), nfc)
    ensures WellFormed(Obj(b), nfc)
  {
    forall i, j | 0 <= i < j < |b| ensures nfc(b[i].key) != nfc(b[j].key) {
      assert nfc(a[i].key) != nfc(a[j].key);
    }
  }

  lemma {:induction false} NoWorsePut(a: Record, b: Record, m: Member<Value>, n: Member<Value>, nfc: string -> string)
    requires NoWorse(a, b, nfc) && m.key == n.key && (WellFormed(m.value, nfc) ==> WellFormed(n.value, nfc))
    ensures NoWorse(JsonParser.Put(a, m), JsonParser.Put(b, n), nfc)
  {
    if a != [] && a[0].key != m.key {
      NoWorsePut(a[1..], b[1..], m, n, nfc);
    }
  }

  /** What a smaller set of settled receipts leaves listed includes what a larger one does. */
  lemma {:induction false} KeptMore(session: string, admissions: seq<Value>, less: set<Receipt>, more: set<Receipt>)
    requires forall p :: p in Elements(Pairs(session, admissions)) && p in less ==> p in more
    ensures forall v :: v in Kept(session, admissions, more) ==> v in Kept(session, admissions, less)
    ensures |Kept(session, admissions, more)| <= |Kept(session, admissions, less)|
    decreases |admissions|
  {
    if admissions != [] {
      var tail := admissions[1..];
      PairsStep(session, admissions[0], tail);
      assert admissions == [admissions[0]] + tail;
      match SettledReceipt(admissions[0])
      case None => KeptMore(session, tail, less, more);
      case Some(receipt) =>
        var p := (session, receipt);
        if p in less {
          KeptMore(session, tail, less, more);
        } else if p in more {
          KeptMore(session, tail, less + {p}, more);
        } else {
          KeptMore(session, tail, less + {p}, more + {p});
        }
    }
  }

  lemma RecountNoWorse(record: Record, x: seq<Value>, m: nat, y: seq<Value>, n: nat, nfc: string -> string)
    requires WellFormed(Arr(x), nfc) ==> WellFormed(Arr(y), nfc)
    requires n <= JSON_INTEGER_BOUND
    ensures NoWorse(Recount(record, x, m), Recount(record, y, n), nfc)
  {
    hide WellFormed;
    assert WellFormed(Int(n), nfc) by { FittingCount(n, nfc); }
    NoWorsePut(record, record, Member("admissions", Arr(x)), Member("admissions", Arr(y)), nfc);
    NoWorsePut(JsonParser.Put(record, Member("admissions", Arr(x))), JsonParser.Put(record, Member("admissions", Arr(y))),
      Member("admissions_settled", Int(m)), Member("admissions_settled", Int(n)), nfc);
  }

  lemma FittingCount(n: nat, nfc: string -> string)
    requires n <= JSON_INTEGER_BOUND
    ensures WellFormed(Int(n), nfc)
  {
  }

  lemma RelabelNoWorse(d: Dreamer, a: Record, b: Record)
    requires PlainLaws(d.codec.nfc) && HashLaws(d.hash) && NoWorse(a, b, d.codec.nfc)
    requires Relabel(d, a).Some? && Relabel(d, b).Some? && WellFormed(Obj(Relabel(d, a).value), d.codec.nfc)
    ensures WellFormed(Obj(Relabel(d, b).value), d.codec.nfc)
  {
    hide Decision, DecidedNothing, NoWorse;
    var nfc := d.codec.nfc;
    PlainId(d, Decision(b));
    PlainAllowed(CheckpointId(d, Decision(b)));
    NoWorsePut(a, b, Member("checkpoint_id", Str(CheckpointId(d, Decision(a)))), Member("checkpoint_id", Str(CheckpointId(d, Decision(b)))), nfc);
    NoWorseWellFormed(Relabel(d, a).value, Relabel(d, b).value, nfc);
  }

  /** What decided something decides something when it lists more. */
  lemma NothingLess(record: Record, x: seq<Value>, m: nat, y: seq<Value>, n: nat)
    requires Nothing(Recount(record, x, m)) && |y| <= |x|
    ensures Nothing(Recount(record, y, n))
  {
    hide ZeroSweep;
    RecountFields(record, x, m);
    RecountFields(record, y, n);
  }

  lemma RecountFields(record: Record, kept: seq<Value>, count: nat)
    ensures var r := Recount(record, kept, count);
      && Get(r, "admissions") == Some(Arr(kept))
      && Get(r, "admission_failures") == Get(record, "admission_failures")
      && Get(r, "admissions_held") == Get(record, "admissions_held")
      && Get(r, "personal_fact_count") == Get(record, "personal_fact_count")
      && Get(r, "sweep") == Get(record, "sweep")
  {
    var m, n := Member("admissions", Arr(kept)), Member("admissions_settled", Int(count));
    var once := JsonParser.Put(record, m);
    GetPut(record, m, "admissions");
    GetPut(once, n, "admissions");
    GetPut(record, m, "admission_failures");
    GetPut(once, n, "admission_failures");
    GetPut(record, m, "admissions_held");
    GetPut(once, n, "admissions_held");
    GetPut(record, m, "personal_fact_count");
    GetPut(once, n, "personal_fact_count");
    GetPut(record, m, "sweep");
    GetPut(once, n, "sweep");
  }

  lemma FewerWellFormed(x: seq<Value>, y: seq<Value>, nfc: string -> string)
    requires WellFormed(Arr(x), nfc) && forall v :: v in y ==> v in x
    ensures WellFormed(Arr(y), nfc)
  {
    forall i | 0 <= i < |y| ensures WellFormed(y[i], nfc) {
      assert y[i] in x;
    }
  }

  /** A checkpoint that could not be written back, and not for its count, cannot be when less of it was
      settled. */
  lemma StillUnwritable(d: Dreamer, record: Record, less: set<Receipt>, more: set<Receipt>)
    requires PlainLaws(d.codec.nfc) && HashLaws(d.hash) && CountFits(record, more)
    requires forall p :: p in Elements(Listed(record)) && p in less ==> p in more
    requires Reencode(d, record, more).Some? && !WellFormed(Obj(Reencode(d, record, more).value), d.codec.nfc)
    ensures Reencode(d, record, less).Some? && !WellFormed(Obj(Reencode(d, record, less).value), d.codec.nfc)
  {
    hide Kept, Recount, Decision, WellFormed, DecidedNothing, Nothing, NoWorse, SessionOf, AdmissionsOf, CountOf, Pairs;
    var nfc, session, admissions := d.codec.nfc, SessionOf(record), AdmissionsOf(record);
    var x, y := Kept(session, admissions, less), Kept(session, admissions, more);
    var m, n := CountOf(record) + |admissions| - |x|, CountOf(record) + |admissions| - |y|;
    KeptMore(session, admissions, less, more);
    DecisionParts(Recount(record, x, m));
    DecisionParts(Recount(record, y, n));
    if Nothing(Recount(record, x, m)) {
      NothingLess(record, x, m, y, n);
    }
    if WellFormed(Arr(x), nfc) {
      FewerWellFormed(x, y, nfc);
    }
    RecountNoWorse(record, x, m, y, n, nfc);
    if WellFormed(Obj(Reencode(d, record, less).value), nfc) {
      RelabelNoWorse(d, Recounted(record, less), Recounted(record, more));
    }
  }
}
