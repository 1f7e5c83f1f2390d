/** What a dream keeps of a ledger, line by line (dream.rs 156-251), and the parts of a checkpoint
    it reads (session.rs 2219-2254, 4472-4479, 4559-4561). */
module DreamFilter {
  import opened Wrappers
  import opened Utf8
  import opened KeyOrder
  import opened JsonValue
  import opened LedgerIdentity
  import JsonParser
  import JsonWriter
  import LedgerLines

  /** What a compaction runs with: the ledger's readers, its spec, whether it holds checkpoints,
      and SHA-256 of a text in hexadecimal. */
  datatype Dreamer = Dreamer(codec: Codec, spec: Spec, checkpoints: bool, hash: string -> string)

  /** A settled receipt of a session. */
  type Receipt = (string, string)

  datatype State = State(seen: set<Digest>, settled: set<Receipt>, dropped: nat, reencoded: nat)

  datatype Step = Step(state: State, line: Option<Bytes>)

  const INITIAL := State({}, {}, 0, 0)

  predicate IsWhitespace(b: byte) {
    b == 32 || b == 9 || b == 10 || b == 12 || b == 13
  }

  predicate Blank(line: Bytes) {
    forall i :: 0 <= i < |line| ==> IsWhitespace(line[i])
  }

  // ----- the parts of a checkpoint -----

  function SessionOf(record: Record): string {
    match GetText(record, "session_id")
    case Some(session) => session
    case None => ""
  }

  function AdmissionsOf(record: Record): seq<Value> {
    match Get(record, "admissions")
    case Some(Arr(items)) => items
    case _ => []
  }

  function CountOf(record: Record): nat {
    match Get(record, "admissions_settled")
    case Some(Int(n)) => if n < 0 then 0 else n
    case _ => 0
  }

  /** `receipt_settled`: any state but pending and abandoned; none means committed. */
  predicate Settles(receipt: Record) {
    GetText(receipt, "state") != Some("pending") && GetText(receipt, "state") != Some("abandoned")
  }

  /** The receipt an admission lists as settled, when it does. */
  function SettledReceipt(admission: Value): Option<string> {
    match admission
    case Obj(members) => if Settles(members) then GetText(members, "receipt_id") else None
    case _ => None
  }

  function Pairs(session: string, admissions: seq<Value>): seq<Receipt> {
    if admissions == [] then []
    else match SettledReceipt(admissions[0])
      case Some(receipt) => [(session, receipt)] + Pairs(session, admissions[1..])
      case None => Pairs(session, admissions[1..])
  }

  /** The settled receipts a checkpoint lists. */
  function Listed(record: Record): seq<Receipt> {
    Pairs(SessionOf(record), AdmissionsOf(record))
  }

  /** The admissions left listed: those no earlier one of the session already settled. */
  function Kept(session: string, admissions: seq<Value>, settled: set<Receipt>): (r: seq<Value>)
    ensures |r| <= |admissions|
  {
    if admissions == [] then []
    else match SettledReceipt(admissions[0])
      case None => [admissions[0]] + Kept(session, admissions[1..], settled)
      case Some(receipt) =>
        if (session, receipt) in settled then Kept(session, admissions[1..], settled)
        else [admissions[0]] + Kept(session, admissions[1..], settled + {(session, receipt)})
  }

  function Or(value: Option<Value>, default: Value): Value {
    match value
    case Some(v) => v
    case None => default
  }

  /** `checkpoint_decision`: what a checkpoint decided. */
  function Decision(record: Record): Record {
    [Member("session_id", Or(Get(record, "session_id"), Null)),
     Member("admissions", Or(Get(record, "admissions"), Arr([]))),
     Member("admission_failures", Or(Get(record, "admission_failures"), Int(0))),
     Member("admissions_held", Or(Get(record, "admissions_held"), Int(0))),
     Member("personal_fact_count", Or(Get(record, "personal_fact_count"), Int(0))),
     Member("sweep", Or(Get(record, "sweep"), Null))]
  }

  /** `checkpoint_id`. */
  function CheckpointId(d: Dreamer, decision: Record): string {
    "checkpoint_" + d.hash(JsonWriter.Canonical(Obj(decision), d.codec.nfc))
  }

  predicate AllZero(members: Record) {
    forall m :: m in members ==> m.value == Int(0)
  }

  /** `checkpoint_is_empty`, on a decision. */
  predicate DecidedNothing(decision: Record) {
    && Get(decision, "admissions") == Some(Arr([]))
    && Get(decision, "admission_failures") == Some(Int(0))
    && Get(decision, "admissions_held") == Some(Int(0))
    && Get(decision, "personal_fact_count") == Some(Int(0))
    && match Get(decision, "sweep") case Some(Obj(sweep)) => AllZero(sweep) case _ => true
  }

  /** The record with its admissions and their count replaced. */
  function Recount(record: Record, kept: seq<Value>, count: nat): Record {
    JsonParser.Put(JsonParser.Put(record, Member("admissions", Arr(kept))), Member("admissions_settled", Int(count)))
  }

  /** The recounted record under the id of what it decided, unless it decided nothing. */
  function Relabel(d: Dreamer, record: Record): Option<Record> {
    if DecidedNothing(Decision(record)) then None
    else Some(JsonParser.Put(record, Member("checkpoint_id", Str(CheckpointId(d, Decision(record))))))
  }

  function Recounted(record: Record, settled: set<Receipt>): Record {
    var admissions := AdmissionsOf(record);
    var kept := Kept(SessionOf(record), admissions, settled);
    Recount(record, kept, CountOf(record) + |admissions| - |kept|)
  }

  /** `reencode_checkpoint`: the checkpoint in the current form. */
  function Reencode(d: Dreamer, record: Record, settled: set<Receipt>): Option<Record> {
    Relabel(d, Recounted(record, settled))
  }

  lemma ReencodeBySifting(d: Dreamer, record: Record, settled: set<Receipt>, kept: seq<Value>, counted: nat)
    requires kept == Kept(SessionOf(record), AdmissionsOf(record), settled)
    requires counted + |kept| == |AdmissionsOf(record)|
    ensures Reencode(d, record, settled) == Relabel(d, Recount(record, kept, CountOf(record) + counted))
  {
    hide Kept, Recount, Relabel, SessionOf, AdmissionsOf, CountOf;
  }

  // ----- the filter -----

  function Admit(d: Dreamer, s: State, record: Record, line: Bytes): Step {
    var identity := Identity(d.codec, d.spec, record, line);
    if identity in s.seen then Step(s.(dropped := s.dropped + 1), None)
    else Step(s.(seen := s.seen + {identity}), Some(line))
  }

  function Elements<T>(s: seq<T>): set<T> {
    set x | x in s
  }

  function KeepCheckpoint(d: Dreamer, s: State, record: Record, line: Bytes): Step {
    var after := s.(settled := s.settled + Elements(Listed(record)));
    match Reencode(d, record, s.settled)
    case None => Step(after.(dropped := s.dropped + 1), None)
    case Some(reencoded) =>
      match JsonWriter.TryCanonicalBytes(Obj(reencoded), d.codec.nfc)
      case Ok(bytes) =>
        if bytes != line then Admit(d, after.(reencoded := s.reencoded + 1), reencoded, bytes)
        else Admit(d, after, reencoded, line)
      case Err(_) => Admit(d, after, record, line)
  }

  /** `Filter::keep`. */
  function KeepStep(d: Dreamer, s: State, line: Bytes): Step {
    if Blank(line) then Step(s, None)
    else match d.codec.parse(line)
      case None => Step(s, Some(line))
      case Some(record) =>
        if d.checkpoints then KeepCheckpoint(d, s, record, line) else Admit(d, s, record, line)
  }

  datatype Pass = Pass(state: State, lines: seq<Bytes>)

  function AsLines(line: Option<Bytes>): seq<Bytes> {
    match line
    case Some(l) => [l]
    case None => []
  }

  /** A pass of the filter over lines. */
  function KeepAll(d: Dreamer, s: State, lines: seq<Bytes>): Pass
    decreases |lines|
  {
    if lines == [] then Pass(s, [])
    else
      var step := KeepStep(d, s, lines[0]);
      var rest := KeepAll(d, step.state, lines[1..]);
      Pass(rest.state, AsLines(step.line) + rest.lines)
  }

  lemma {:induction false} KeepAllConcat(d: Dreamer, s: State, a: seq<Bytes>, b: seq<Bytes>)
    ensures var first := KeepAll(d, s, a); var second := KeepAll(d, first.state, b);
      KeepAll(d, s, a + b) == Pass(second.state, first.lines + second.lines)
    decreases |a|
  {
    if a == [] {
      assert a + b == b && [] + KeepAll(d, s, b).lines == KeepAll(d, s, b).lines;
    } else {
      var step := KeepStep(d, s, a[0]);
      assert (a + b)[1..] == a[1..] + b;
      KeepAllConcat(d, step.state, a[1..], b);
      var first := KeepAll(d, step.state, a[1..]);
      LedgerLines.Associate(AsLines(step.line), first.lines, KeepAll(d, first.state, b).lines);
    }
  }

  // ----- the filter as the object the source runs -----

  /** The source's map of sets, as one set of receipts. */
  function Flat(settled: map<string, set<string>>): set<Receipt> {
    set session, receipt | session in settled && receipt in settled[session] :: (session, receipt)
  }

  lemma FlatHas(settled: map<string, set<string>>, session: string, receipt: string)
    ensures (session, receipt) in Flat(settled) <==> session in settled && receipt in settled[session]
  {
  }

  lemma FlatEntry(settled: map<string, set<string>>, session: string)
    requires session !in settled
    ensures Flat(settled[session := {}]) == Flat(settled)
  {
  }

  lemma FlatAdd(settled: map<string, set<string>>, session: string, receipt: string)
    requires session in settled
    ensures Flat(settled[session := settled[session] + {receipt}]) == Flat(settled) + {(session, receipt)}
  {
  }

  lemma PairsStep(session: string, admission: Value, rest: seq<Value>)
    ensures Elements(Pairs(session, [admission] + rest)) ==
            (match SettledReceipt(admission) case Some(r) => {(session, r)} case None => {}) + Elements(Pairs(session, rest))
  {
  }

  lemma KeptStep(session: string, admission: Value, rest: seq<Value>, settled: set<Receipt>)
    ensures Kept(session, [admission] + rest, settled) ==
            match SettledReceipt(admission)
            case None => [admission] + Kept(session, rest, settled)
            case Some(r) =>
              if (session, r) in settled then Kept(session, rest, settled)
              else [admission] + Kept(session, rest, settled + {(session, r)})
  {
  }

  /** The first `n` admissions are sorted, into `kept` and what was settled since `before`. */
  ghost predicate Sifted(session: string, admissions: seq<Value>, before: set<Receipt>, n: nat, kept: seq<Value>, settled: set<Receipt>)
    requires n <= |admissions|
  {
    && kept + Kept(session, admissions[n..], settled) == Kept(session, admissions, before)
    && settled + Elements(Pairs(session, admissions[n..])) == before + Elements(Pairs(session, admissions))
  }

  lemma SiftStart(session: string, admissions: seq<Value>, before: set<Receipt>)
    ensures Sifted(session, admissions, before, 0, [], before)
  {
  }

  lemma SiftEnd(session: string, admissions: seq<Value>, before: set<Receipt>, kept: seq<Value>, settled: set<Receipt>)
    requires Sifted(session, admissions, before, |admissions|, kept, settled)
    ensures kept == Kept(session, admissions, before) && settled == before + Elements(Pairs(session, admissions))
  {
  }

  lemma SiftNext(session: string, admissions: seq<Value>, before: set<Receipt>, n: nat, kept: seq<Value>, settled: set<Receipt>)
    requires n < |admissions| && Sifted(session, admissions, before, n, kept, settled)
    ensures match SettledReceipt(admissions[n])
      case None => Sifted(session, admissions, before, n + 1, kept + [admissions[n]], settled)
      case Some(r) =>
        if (session, r) in settled then Sifted(session, admissions, before, n + 1, kept, settled)
        else Sifted(session, admissions, before, n + 1, kept + [admissions[n]], settled + {(session, r)})
  {
    var admission, rest := admissions[n], admissions[n + 1..];
    assert admissions[n..] == [admission] + rest;
    KeptStep(session, admission, rest, settled);
    PairsStep(session, admission, rest);
    LedgerLines.Associate(kept, [admission], Kept(session, rest, settled));
    match SettledReceipt(admission)
    case None =>
    case Some(r) => LedgerLines.Associate(kept, [admission], Kept(session, rest, settled + {(session, r)}));
  }

  class Filter {
    const d: Dreamer
    var seen: set<Digest>
    var settled: map<string, set<string>>
    var dropped: nat
    var reencoded: nat

    ghost function View(): State
      reads this
    {
      State(seen, Flat(settled), dropped, reencoded)
    }

    constructor (d: Dreamer)
      ensures this.d == d && View() == INITIAL
    {
      this.d := d;
      seen, settled, dropped, reencoded := {}, map[], 0, 0;
    }

    /** The loop of `reencode_checkpoint`: sorts the admissions into listed and counted. */
    method Sift(session: string, admissions: seq<Value>) returns (kept: seq<Value>, counted: nat)
      requires session in settled
      modifies this`settled
      ensures kept == Kept(session, admissions, old(Flat(settled)))
      ensures counted + |kept| == |admissions|
      ensures Flat(settled) == old(Flat(settled)) + Elements(Pairs(session, admissions))
    {
      kept, counted := [], 0;
      ghost var before := Flat(settled);
      SiftStart(session, admissions, before);
      for i := 0 to |admissions|
        invariant session in settled && counted + |kept| == i
        invariant Sifted(session, admissions, before, i, kept, Flat(settled))
      {
        var admission := admissions[i];
        ghost var now := Flat(settled);
        var receipt := SettledReceipt(admission);
        SiftNext(session, admissions, before, i, kept, now);
        if receipt.Some? && receipt.value in settled[session] {
          FlatHas(settled, session, receipt.value);
          counted := counted + 1;
        } else {
          if receipt.Some? {
            FlatHas(settled, session, receipt.value);
            FlatAdd(settled, session, receipt.value);
            settled := settled[session := settled[session] + {receipt.value}];
          }
          kept := kept + [admission];
        }
      }
      SiftEnd(session, admissions, before, kept, Flat(settled));
    }

    /** `reencode_checkpoint`, answering the record when it decided something. */
    method ReencodeCheckpoint(record: Record) returns (r: Option<Record>)
      modifies this`settled
      ensures r == Reencode(d, record, old(Flat(settled)))
      ensures Flat(settled) == old(Flat(settled)) + Elements(Listed(record))
    {
      var session, admissions := SessionOf(record), AdmissionsOf(record);
      if session !in settled {
        FlatEntry(settled, session);
        settled := settled[session := {}];
      }
      var kept, counted := Sift(session, admissions);
      ReencodeBySifting(d, record, old(Flat(settled)), kept, counted);
      var recounted := Recount(record, kept, CountOf(record) + counted);
      r := Relabel(d, recounted);
    }

    /** The end of `keep`: a line whose identity was seen is dropped. */
    method KeepFirst(record: Record, line: Bytes) returns (kept: Option<Bytes>)
      modifies this`seen, this`dropped
      ensures Step(View(), kept) == Admit(d, old(View()), record, line)
    {
      var identity := Identity(d.codec, d.spec, record, line);
      if identity in seen {
        dropped := dropped + 1;
        return None;
      }
      seen := seen + {identity};
      return Some(line);
    }

    /** `keep`. */
    method Keep(line: Bytes) returns (kept: Option<Bytes>)
      modifies this
      ensures Step(View(), kept) == KeepStep(d, old(View()), line)
    {
      hide Blank, Reencode, Identity, Listed, JsonWriter.TryCanonicalBytes;
      if Blank(line) {
        return None;
      }
      var parsed := d.codec.parse(line);
      if parsed.None? {
        return Some(line);
      }
      var record, out := parsed.value, line;
      if d.checkpoints {
        var again := ReencodeCheckpoint(record);
        if again.None? {
          dropped := dropped + 1;
          return None;
        }
        match JsonWriter.TryCanonicalBytes(Obj(again.value), d.codec.nfc) {
          case Ok(bytes) =>
            record := again.value;
            if bytes != out {
              out := bytes;
              reencoded := reencoded + 1;
            }
          case Err(_) =>
        }
      }
      kept := KeepFirst(record, out);
    }
  }
}
