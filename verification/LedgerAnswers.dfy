/** When the index answers: the read and append answers, and the budget that refuses them. */
module LedgerAnswers {
  import opened Wrappers
  import opened Utf8
  import opened LedgerLines
  import opened LedgerIdentity
  import opened LedgerIndex
  import opened LedgerReads
  import opened LedgerAppends

  // ----- what a cursor tells -----

  /** A cursor set at `length` of one file takes another for it exactly when that has the device, the
      inode, at least that length, and the same last 64 bytes before it. */
  lemma CursorTellsExactly(f: File, g: File, length: nat)
    requires length <= |f.bytes|
    ensures Current(Some(CursorAt(f, length)), g) <==>
      && g.device == f.device && g.inode == f.inode && length <= |g.bytes|
      && forall i :: 0 <= i < length && length - i <= 64 ==> g.bytes[i] == f.bytes[i]
  {
    if length <= |g.bytes| {
      var from := if length < 64 then 0 else length - 64;
      assert ReadTail(f.bytes, length) == f.bytes[from..length] && ReadTail(g.bytes, length) == g.bytes[from..length];
      if ReadTail(f.bytes, length) == ReadTail(g.bytes, length) {
        forall i | 0 <= i < length && length - i <= 64 ensures g.bytes[i] == f.bytes[i] {
          assert g.bytes[i] == g.bytes[from..length][i - from] && f.bytes[i] == f.bytes[from..length][i - from];
        }
      }
    }
  }

  /** One carriage return is stripped, and nothing else. */
  lemma StripExact(text: Bytes)
    ensures Strip(text + [CARRIAGE_RETURN]) == text
    ensures !EndsInReturn(text) ==> Strip(text) == text
  {
  }

  // ----- the budget -----

  /** How many bytes of the file a cursor has not read: all of it, when it is not this file's. */
  function Unread(f: File, cursor: Option<Cursor>): nat {
    if Current(cursor, f) then |f.bytes| - cursor.value.length else |f.bytes|
  }

  /** A catch-up succeeds exactly when what is unread is within the budget. */
  lemma CatchesUpExactly(c: Codec, spec: Spec, f: File, ix: Index, budget: Option<nat>)
    ensures CatchUp(c, spec, f, ix, budget).0 <==> budget.None? || Unread(f, ix.cursor) <= budget.value
  {
  }

  /** And it then leaves unread the torn tail alone. */
  lemma CaughtUpReads(c: Codec, spec: Spec, f: File, ix: Index, budget: Option<nat>)
    requires Trusted(c, spec, f, ix) && CatchUp(c, spec, f, ix, budget).0
    ensures Unread(f, CatchUp(c, spec, f, ix, budget).1.cursor) == |TornLine(f.bytes).raw|
  {
    CatchUpExact(c, spec, f, ix, budget);
  }

  /** What a ledger grows by is all that becomes unread. */
  lemma GrowthIsUnread(f: File, cursor: Option<Cursor>, more: Bytes)
    requires Current(cursor, f)
    ensures Unread(f.(bytes := f.bytes + more), cursor) == Unread(f, cursor) + |more|
  {
    GrowthIsNoticed(Index(cursor, EMPTY), f, more);
    CursorTellsExactly(f, f.(bytes := f.bytes + more), cursor.value.length);
  }

  /** What is unread is within the budget of a hook. */
  predicate InReach(f: File, ix: Index) {
    Unread(f, ix.cursor) <= HOOK_CATCH_UP_BYTES
  }

  predicate Rereadable(f: File) {
    |f.bytes| <= HOOK_CATCH_UP_BYTES
  }

  lemma ForgottenReach(f: File)
    ensures InReach(f, FORGOTTEN) <==> Rereadable(f)
  {
  }

  // ----- the answers -----

  /** From a trusted index: a tagged read of a tag field answers what it finds exactly when the unread
      part is within the budget and no carrying line ends in a carriage return. Where one does, the
      ledger is read again, and the index disagrees with it again, or the ledger is too long for that. */
  lemma ReadAnswersExactly(c: Codec, spec: Spec, f: File, ix: Index, field: string, values: seq<string>, ix': Index, answer: Answer)
    requires PlainSpec(spec) && Trusted(c, spec, f, ix)
    requires ReadTagged(c, spec, f, ix, field, values, ix', answer)
    ensures answer == NotIndexed <==> field !in spec.tags
    ensures answer.Found? <==> field in spec.tags && InReach(f, ix) && !ReturnEnded(c, f.bytes, field, values)
    ensures answer == Disagrees <==>
      field in spec.tags && InReach(f, ix) && ReturnEnded(c, f.bytes, field, values) && Rereadable(f)
    ensures answer == TooFarBehind <==>
      field in spec.tags && (!InReach(f, ix) || (ReturnEnded(c, f.bytes, field, values) && !Rereadable(f)))
  {
    hide CatchUp, Tagged, Trusted, Unread;
    ReadTaggedExact(c, spec, f, ix, field, values, ix', answer);
    CatchesUpExactly(c, spec, f, ix, HOOK);
    CatchesUpExactly(c, spec, f, FORGOTTEN, HOOK);
    ForgottenReach(f);
  }

  /** An append of a record answers exactly when the unread part is within the budget, and the ledger is
      too where a line of that identity cannot be confirmed: Present when the first such line can be, and
      Written otherwise. */
  lemma AppendAnswersExactly(c: Codec, spec: Spec, f: File, ix: Index, canonical: Bytes, indexed: bool)
    requires Trusted(c, spec, f, ix)
    ensures var answer := Append(c, spec, f, ix, canonical, indexed).2;
      match c.parse(canonical)
      case None => answer == NotAnObject
      case Some(record) =>
        var key := Identity(c, spec, record, canonical);
        var there, known := FirstWith(c, spec, Lines(f.bytes), key).Some?, Known(c, spec, f.bytes, key);
        && (answer == Present <==> InReach(f, ix) && known)
        && (answer == Written <==> InReach(f, ix) && !known && (there ==> Rereadable(f)))
        && (answer == Behind <==> !InReach(f, ix) || (!known && there && !Rereadable(f)))
  {
    if c.parse(canonical).Some? {
      hide Known, IndexOf, Lines, Unread, Identity, FirstWith;
      var key := Identity(c, spec, c.parse(canonical).value, canonical);
      LookupExact(c, spec, f, key);
      CatchesUpExactly(c, spec, f, ix, HOOK);
      CatchesUpExactly(c, spec, f, FORGOTTEN, HOOK);
      ForgottenReach(f);
      Reread(c, spec, f, ix, key);
      AppendByLookup(c, spec, f, ix, canonical, indexed, key);
    }
  }

  /** What both catch-ups of an append look the key up in. */
  lemma Reread(c: Codec, spec: Spec, f: File, ix: Index, key: Digest)
    requires Trusted(c, spec, f, ix)
    ensures CatchUp(c, spec, f, ix, HOOK).0 ==> CatchUp(c, spec, f, ix, HOOK).1.tables == IndexOf(c, spec, f.bytes)
    ensures CatchUp(c, spec, f, FORGOTTEN, HOOK).0 ==> CatchUp(c, spec, f, FORGOTTEN, HOOK).1.tables == IndexOf(c, spec, f.bytes)
  {
    hide CatchUp, IndexOf;
    if CatchUp(c, spec, f, ix, HOOK).0 {
      CatchUpExact(c, spec, f, ix, HOOK);
    }
    if CatchUp(c, spec, f, FORGOTTEN, HOOK).0 {
      CatchUpExact(c, spec, f, FORGOTTEN, HOOK);
    }
  }

  lemma AppendByLookup(c: Codec, spec: Spec, f: File, ix: Index, canonical: Bytes, indexed: bool, key: Digest)
    requires c.parse(canonical).Some? && key == Identity(c, spec, c.parse(canonical).value, canonical)
    requires CatchUp(c, spec, f, ix, HOOK).0 ==> CatchUp(c, spec, f, ix, HOOK).1.tables == IndexOf(c, spec, f.bytes)
    requires CatchUp(c, spec, f, FORGOTTEN, HOOK).0 ==> CatchUp(c, spec, f, FORGOTTEN, HOOK).1.tables == IndexOf(c, spec, f.bytes)
    ensures var t := IndexOf(c, spec, f.bytes);
      Append(c, spec, f, ix, canonical, indexed).2 ==
        if !CatchUp(c, spec, f, ix, HOOK).0 then Behind
        else if Lookup(c, spec, f, t, key) then Present
        else if key in t.keys && !CatchUp(c, spec, f, FORGOTTEN, HOOK).0 then Behind
        else Written
  {
    hide CatchUp, IndexOf, Lookup, Identity, WriteLine, InsertRecord;
  }

  /** In every run, at every point where what the index has not read is within the budget: a tagged read
      of a tag field answers, unless a carrying line ends in a carriage return; and so does an append of a
      record, unless it has to read again a ledger that is longer than the budget. */
  lemma RunAnswersExactly(c: Codec, spec: Spec, states: seq<State>, events: seq<Event>, at: nat)
    requires PlainSpec(spec) && Run(c, spec, states, events) && at < |states|
    requires Trusted(c, spec, states[0].file, states[0].index) && InReach(states[at].file, states[at].index)
    ensures forall field, values, ix', answer ::
      ReadTagged(c, spec, states[at].file, states[at].index, field, values, ix', answer) && field in spec.tags ==>
      (answer.Found? <==> !ReturnEnded(c, states[at].file.bytes, field, values))
    ensures forall canonical, indexed :: c.parse(canonical).Some? ==>
      var key := Identity(c, spec, c.parse(canonical).value, canonical); var b := states[at].file.bytes;
      (Append(c, spec, states[at].file, states[at].index, canonical, indexed).2 in {Present, Written} <==>
        (FirstWith(c, spec, Lines(b), key).Some? && !Known(c, spec, b, key) ==> Rereadable(states[at].file)))
  {
    hide CatchUp, Append, Known, FirstWith, Lines, Carries, ReturnEnded, ReadTagged, Unread, Run, Trusted;
    RunReadsExactly(c, spec, states, events, at);
    var f, ix := states[at].file, states[at].index;
    forall field, values, ix', answer | ReadTagged(c, spec, f, ix, field, values, ix', answer) && field in spec.tags
      ensures answer.Found? <==> !ReturnEnded(c, f.bytes, field, values) {
      ReadAnswersExactly(c, spec, f, ix, field, values, ix', answer);
    }
    forall canonical, indexed | c.parse(canonical).Some?
      ensures var key := Identity(c, spec, c.parse(canonical).value, canonical);
        (Append(c, spec, f, ix, canonical, indexed).2 in {Present, Written} <==>
          (FirstWith(c, spec, Lines(f.bytes), key).Some? && !Known(c, spec, f.bytes, key) ==> Rereadable(f)))
    {
      AppendAnswersExactly(c, spec, f, ix, canonical, indexed);
    }
  }
}
