# Models of kinbase's durable local state

Dafny models of the code in kinbase that keeps local state consistent, and of the byte-level codecs
that state rests on, with proofs of what the code promises. `dafny verify dfyconfig.toml` checks all
of it. Each module says in its first comment which source lines it models.

## What is modelled

- **The ledger and its identity index** (`Ledger*.dfy`). An append-only byte ledger is the authority;
  the `keys`, `tags` and `cursor` tables follow it. A tagged read that answers equals a full scan over
  every run of appends, crashes, index deletions and noticed replacements, and an append answers
  Present only on the ledger's own word.
- **The admission journal** (`Admission*.dfy`). A disk, and the sequence of durable writes an admission
  and a recovery make. A process may die after any write, in recovery too; the next recovery finishes
  what was begun.
- **The admission lock** (`Turnstile*.dfy`), **the manifest lineage** (`Lineage.dfy`) and **the Merkle
  root** (`Merkle.dfy`).
- **Dream compaction** (`Dream*.dfy`, `Checkpoint*.dfy`, `NfcMerges.dfy`, `LostReceipts.dfy`). A filter
  over lines, run in two phases while writers append; what it keeps, what it conserves and when it does
  not, and when a second run is a no-op.
- **Canonical JSON** (`Json*.dfy`, `KeyOrder.dfy`, `DuplicateKeys.dfy`, `EscapeExact.dfy`, `Hex.dfy`,
  `TextRule.dfy`, `StrictErrors.dfy`, `Utf8.dfy`): RFC 8785 writer, strict parser, one-pass
  duplicate-key scan, and the exact escaped renderer.
- **Observation reconciliation** (`Ingest*.dfy`): a scan folded into rows with lifecycles.
- **Packing and splicing** (`Batches.dfy`, `Evidence.dfy`, `Framing.dfy`, `BrokenFrame.dfy`,
  `Weights.dfy`, `Splice.dfy`, `Sections.dfy`).

Where the source updates an object, so does the model: the index transaction, the ledger, the code
base, the dream's filter, the compacted path, the reconciler and the bounded evidence are classes
whose methods are tied to functions, and the laws are lemmas about those functions. Loops over
buffers and lists are methods with loops.

## What is assumed

- NFC is a parameter. It is idempotent and never makes allowed text forbidden (`NfcLaws`); where
  field names matter, it neither changes lowercase ASCII words nor makes them of anything else
  (`PlainLaws`); where lengths and frames matter, an ASCII character is a boundary it does not compose
  across, ASCII text is normal and so is any part of normal text (`Evidence.AsciiLaws`), all from
  Unicode Standard Annex 15. `BrokenFrame.Acute` is a normalizer that has these laws.
- SHA-256 is an ideal hash: a digest carries what was hashed (`LedgerIdentity.Digest`,
  `AdmissionDisk.Digest`, `Ingest.Id`), or an injective parameter (`HashLaws`, `Lineage.Injective`).
  The Merkle root assumes only 32 bytes and exhibits a collision where one is needed.
- A codec reads canonical bytes back as the value that was written (`ReadsCanonical`);
  `NfcMerges.ModelReadsCanonical` builds one that does.
- Objects keep the order of their members, as the JSON library is configured to.
- A `write_atomic` is one step, and so is a committed transaction. In the source a process can die
  between the temporary file and its rename; a `.tmp-*` file left in the journal directory is listed
  (paths.rs 200-220, 248-286), and recovery then parses it as an entry.
- A binary float is held as the number token it is printed as (`Evidence.Numeric`).
- A file kept open keeps its inode, so a replaced ledger is noticed.

## What the proofs found

- A ledger line that ends in CR is stored under a length without it, so the index never confirms it:
  a tagged read then answers with disagreement, and an append writes the record again
  (`LedgerReads.TaggedExact`, `LedgerAppends.AppendExact`).
- An append onto a torn last line moves the cursor past it. When that line lacked nothing but its
  newline the index loses it: a tagged read answers without it, and the record can be written again
  (`LedgerAppends.ReadableTornTailIsLost`, `LedgerAppends.TornRecordIsWrittenTwice`).
- Fan-out markers lie under `journal/`, where recovery reads them as entries. They carry no
  `repository_uuid`, and at most a `state` of their own, so it refuses them as foreign
  (`AdmissionJournal.MarkersRefuse`).
- A checkpoint that cannot be written back is kept, and counted, under the id it states. A later
  checkpoint re-encoded to that id is dropped, with the receipts it lists
  (`LostReceipts.ACompactionLosesAReceipt`); `CheckpointLedger.ReceiptsConservedExact` is the exact
  condition.
- Compaction is not idempotent on two settled receipts that differ only by normalization: they are two
  in the first pass and one in the second (`NfcMerges.SecondCompactionChanges`). When it is, is
  `CheckpointLaws.CompactedAgainExact`.
- A record set aside for its clock skew can be inserted by a later run of the same scan
  (`IngestHistory.AClaimComesDue`); the exact condition is `IngestLaws.IngestingLaterExact`.
- Re-observing a withdrawn row does not end a sibling (`IngestHistory.TwoCurrent`); the exact condition
  is `IngestHistory.OneCurrentExact`.
- The escaped context is normalised as one text, so a combining mark right after an escaped line break
  joins the letter of the escape: the frame then counts a byte too many, and its document is no JSON
  (`BrokenFrame.AFactBreaksTheFrame`). `Framing.FrameArrivesExactly` says exactly when a frame arrives
  as it was written. The ceilings hold of the normalised text all the same.

## Model

| member | source | states |
|---|---|---|
| `LedgerIdentity.IdentityOf` | crates/kinbase/src/ledger_index.rs:115-131 | the identity loop digests the key fields in order, or the whole line as soon as one is missing |
| `LedgerIdentity.IdentityExact` | crates/kinbase/src/ledger_index.rs:112-131 | two records have one identity exactly when their key fields agree up to NFC; records without a key are identified by their line and never collide with keyed ones |
| `LedgerIdentity.TagInjective` | crates/kinbase/src/ledger_index.rs:133-135 | tags of different fields or values differ |
| `LedgerIdentity.SpelledStrings` | crates/kinbase/src/ledger_index.rs:268-293 | the byte scan of an unreadable line returns what `Spelled` says |
| `LedgerIdentity.ReadQuoted` | crates/kinbase/src/ledger_index.rs:276-287 | the string at a place of the line, stepping over escaped bytes, when it is there whole |
| `LedgerIdentity.SpelledExact` | crates/kinbase/src/ledger_index.rs:268-293 | a value is found exactly when somewhere the field marker stands right before a whole string that reads as it |
| `LedgerIdentity.StringAtExact` | crates/kinbase/src/ledger_index.rs:276-287 | the string that opens at a quote ends at the first quote with an even number of backslashes before it |
| `LedgerIdentity.NoStringAt` | crates/kinbase/src/ledger_index.rs:276-287 | nothing is read where no quote opens, or none closes |
| `LedgerAnswers.StripExact` | crates/kinbase/src/ledger_index.rs:429-457 | one carriage return is stripped from a line, and nothing else |
| `LedgerLines.LineAtLine` | crates/kinbase/src/ledger_index.rs:297-306 | a stored span confirms a whole line exactly when the line does not end in CR |
| `LedgerLines.LinesGrow` | crates/kinbase/src/ledger_index.rs:429-457 | a ledger that only grew keeps its lines; the rest is read on from where they end |
| `LedgerLines.LinesTerminate` | crates/kinbase/src/store.rs:545-568 | terminating a torn tail makes it one more line |
| `LedgerStore.Transaction.Insert` | crates/kinbase/src/ledger_index.rs:198-238 | the rows one readable line adds, earlier rows standing |
| `LedgerStore.Transaction.InsertUnreadable` | crates/kinbase/src/ledger_index.rs:240-264 | the rows an unreadable line adds |
| `LedgerStore.Transaction.IndexLines` | crates/kinbase/src/ledger_index.rs:429-457 | the catch-up loop indexes every whole line from its start and stops after the last one |
| `LedgerStore.Transaction.CatchUp` | crates/kinbase/src/ledger_index.rs:378-460 | the transaction ends in the state the catch-up function gives; when it succeeds is `LedgerAnswers.CatchesUpExactly` |
| `LedgerStore.Transaction.Rebuild` | crates/kinbase/src/ledger_index.rs:324-347 | an index forgotten and read again from byte 0 |
| `LedgerStore.SortDedup` | crates/kinbase/src/ledger_index.rs:578-593 | spans in ledger order, once each |
| `LedgerStore.Transaction.ReadSpans` | crates/kinbase/src/ledger_index.rs:577-602 | the lines at the named spans, or disagreement as soon as one is not confirmed |
| `LedgerStore.Ledger.Append` | crates/kinbase/src/ledger_index.rs:479-541 | ledger, index and answer after an append, with the lookup, the rebuild and the write in order |
| `LedgerStore.Ledger.ReadTagged` | crates/kinbase/src/ledger_index.rs:546-618 | answers only as the read relation allows, with the index it leaves |
| `LedgerStore.Ledger.Refresh` | crates/kinbase/src/ledger_index.rs:633-655 | the index catches up; the ledger is untouched |
| `LedgerIndex.CatchUpExact` | crates/kinbase/src/ledger_index.rs:378-460 | incremental catch-up from a trusted index equals indexing from byte 0 |
| `LedgerReads.TagRows` | crates/kinbase/src/ledger_index.rs:198-264 | the tag rows of a scan are exactly the lines and the tags they carry |
| `LedgerReads.SpansExact` | crates/kinbase/src/ledger_index.rs:198-293 | a faithful index names exactly the spans of the lines carrying a value |
| `LedgerReads.TaggedExact` | crates/kinbase/src/ledger_index.rs:546-618 | reading those spans back gives the carrying lines, or disagreement exactly when one of them ends in CR |
| `LedgerReads.ReadTaggedExact` | crates/kinbase/src/ledger_index.rs:546-618 | from a trusted index a tagged read that answers returns exactly the lines a full scan would, in order, once each |
| `LedgerReads.ReadTaggedSound` | crates/kinbase/src/ledger_index.rs:546-618 | from any index at all, what a tagged read returns are spans between newlines that carry the value |
| `LedgerAnswers.CursorTellsExactly` | crates/kinbase/src/ledger_index.rs:349-412 | a cursor takes a file for the one it read exactly when device, inode, length and the last 64 bytes agree |
| `LedgerAnswers.CatchesUpExactly` | crates/kinbase/src/ledger_index.rs:378-428 | a catch-up succeeds exactly when what the cursor has not read, or all of a file that is not its own, is within the budget |
| `LedgerAnswers.CaughtUpReads` | crates/kinbase/src/ledger_index.rs:378-460 | and then leaves unread the torn tail alone |
| `LedgerAnswers.GrowthIsUnread` | crates/kinbase/src/ledger_index.rs:378-428 | what a ledger grows by is all that becomes unread |
| `LedgerAnswers.ReadAnswersExactly` | crates/kinbase/src/ledger_index.rs:546-618 | from a trusted index, which of the four answers a tagged read gives: found exactly when the unread part is within the budget and no carrying line ends in CR |
| `LedgerAppends.AppendSound` | crates/kinbase/src/ledger_index.rs:479-541 | for an arbitrary index, a record is suppressed only when the span read back carries its identity, and the ledger changes only when it is written |
| `LedgerAppends.AppendExact` | crates/kinbase/src/ledger_index.rs:479-541 | from a trusted index, Present exactly when the first whole line with the identity is one the ledger can confirm |
| `LedgerAnswers.AppendAnswersExactly` | crates/kinbase/src/ledger_index.rs:479-541 | which of the four answers an append gives, by the unread bytes, the lines of that identity and whether the first can be confirmed |
| `LedgerAppends.AppendKeepsTrust` | crates/kinbase/src/ledger_index.rs:527-541 | after an indexed write the index is trusted exactly when the torn tail held nothing to index |
| `LedgerAppends.TornRecordIsWrittenTwice` | crates/kinbase/src/ledger_index.rs:530-535 | after an indexed write behind a torn tail that holds a whole new record, that record is appended again and the ledger holds two lines of one identity |
| `LedgerAppends.ReadableTornTailIsLost` | crates/kinbase/src/ledger_index.rs:530-535 | and a tagged read that answers then answers with every carrying line but the torn one, which a scan finds |
| `LedgerAppends.GrowthIsNoticed` | crates/kinbase/src/ledger_index.rs:349-412 | a ledger that only grew past the cursor is always read on |
| `LedgerAppends.RunReadsExactly` | crates/kinbase/src/ledger_index.rs:378-618 | over every run of appends, writes around the index, crashes, index deletions and noticed replacements, a read that answers equals the scan |
| `LedgerAnswers.RunAnswersExactly` | crates/kinbase/src/ledger_index.rs:378-618 | in every such run, where what is unread is within the budget, a tagged read finds unless a carrying line ends in CR, and an append answers Present or Written unless it must read again a ledger longer than the budget |
| `LedgerAppends.AppendsKeepDistinct` | crates/kinbase/src/ledger_index.rs:479-541 | over every run of appends the identities of a ledger stay pairwise distinct and what was written first stands |
| `AdmissionCodebase.Codebase.CountCapped` | crates/kinbase/src/codebase.rs:712-716 | the capped count is the count, or capped with the cap passed |
| `AdmissionCodebase.Codebase.CheckIntakeCeiling` | crates/kinbase/src/codebase.rs:726-769 | room exactly when both ceilings hold with the incoming events and bytes |
| `AdmissionCodebase.Codebase.RecoverEntry` | crates/kinbase/src/codebase.rs:1076-1182 | one turn of recovery makes the durable writes of `RecoverOne`, cut anywhere by a crash |
| `AdmissionCodebase.Codebase.RecoverJournal` | crates/kinbase/src/codebase.rs:1069-1184 | recovery reaches one of the disks of its write sequence, and all of it when it is not cut |
| `AdmissionCodebase.Codebase.AdmitNew` | crates/kinbase/src/codebase.rs:975-1064 | the durable writes of a new admission, cut anywhere |
| `AdmissionCodebase.Codebase.AdmitEvent` | crates/kinbase/src/codebase.rs:874-1064 | recovery, the lookup of an earlier receipt and the admission, cut anywhere; which answer each case gets is `AdmissionAnswers.AdmittedExactly` |
| `AdmissionJournal.RecoveryCompletes` | crates/kinbase/src/codebase.rs:1069-1184 | from any disk a crash left, recovery never refuses and never rolls back; every entry ends done, every journaled event is at its digest with its exact bytes and one receipt, and the index cache is the tree's |
| `AdmissionJournal.DoneIsSettled` | crates/kinbase/src/codebase.rs:1069-1194 | when every entry is done, events, receipts and the index cache agree with the journal |
| `AdmissionJournal.RecoverDone` | crates/kinbase/src/codebase.rs:1093-1095 | recovering a settled journal writes nothing |
| `AdmissionJournal.AdmitGood` | crates/kinbase/src/codebase.rs:874-1064 | every disk an admission passes through keeps the journal invariant, takes nothing back and stays within both ceilings |
| `AdmissionJournal.RunsAreSafe` | crates/kinbase/src/codebase.rs:874-1194 | so does every run of admissions and recoveries with a crash after any durable write, crashes inside recovery included |
| `AdmissionJournal.ReceiptsComeLast` | crates/kinbase/src/codebase.rs:1010-1062 | in every such run, at every point, a receipt is there only with its event in the tree and in the index |
| `AdmissionAnswers.RecoveredExactly` | crates/kinbase/src/codebase.rs:1069-1184 | recovery lands the one unfinished event, writes its receipt if it has none, marks its entry done, and changes nothing else, in at most five writes |
| `AdmissionAnswers.AdmittedExactly` | crates/kinbase/src/codebase.rs:874-1062 | a call that is not cut off admits an event exactly when it is within 64 KiB, has no receipt, and one more event and its bytes stay within both ceilings; which refusal it is in each other case; what it adds to what recovery left; and that fifteen writes are enough |
| `AdmissionAnswers.StrangersAreRefused` | crates/kinbase/src/codebase.rs:896-933 | on any disk recovery gets through, a receipt of another repository and an event path with other bytes are refused, and no event, receipt or index entry is touched |
| `AdmissionAnswers.TurnExact` | crates/kinbase/src/codebase.rs:1093-1182 | on any disk: an entry is rolled back exactly when its event was not placed yet and is nowhere to be had, refused exactly when it was placed and is gone or its path is taken, and done with event, receipt and index otherwise |
| `AdmissionJournal.AdmittingAgain` | crates/kinbase/src/codebase.rs:896-974 | admitting exact bytes again returns the receipt they have and writes no second one |
| `AdmissionJournal.MarkersRefuse` | crates/kinbase/src/codebase.rs:1076-1107 | where only markers stand in the way, recovery refuses exactly when there is one that is not done, and as foreign when it carries no identity of the repository |
| `Turnstile.RunsAreSafe` | crates/kinbase/src/codebase.rs:787-868 | in every run one acquisition at most waits on the lock, a writer holds it alone, and nobody leaves still holding the turnstile; that it lets them in is in `TurnstileProgress` |
| `Turnstile.WaitingIsNotOvertaken` | crates/kinbase/src/codebase.rs:832-868 | while one waits the other holders only shrink: no later arrival passes it, and every release brings it one nearer |
| `Turnstile.WaiterIsNext` | crates/kinbase/src/codebase.rs:850-861 | after as many releases as there were holders the waiter's next try gets the lock |
| `Turnstile.ReadersWaitForOneWriter` | crates/kinbase/src/codebase.rs:850-861 | in every run a waiting reader gets the lock at its next try exactly when no writer held it when it began to wait, or one release came since |
| `TurnstileProgress.TurnstileExactly` | crates/kinbase/src/codebase.rs:836-849 | in every run a try of the turnstile passes, expired or not, exactly when nobody is between turnstile and lock, and gives up exactly when somebody is and the deadline has passed |
| `TurnstileProgress.LockExactly` | crates/kinbase/src/codebase.rs:850-866 | so does a try of the lock, by whether a conflicting acquisition has it |
| `TurnstileProgress.FreeLockIsTaken` | crates/kinbase/src/codebase.rs:832-868 | with the turnstile free and no conflicting holder, a reader or writer that arrives gets in and leaves the turnstile free and everyone else in place |
| `TurnstileProgress.NobodyIsShutOut` | crates/kinbase/src/codebase.rs:832-868 | from every state of every run an acquisition at the turnstile can still get the lock without anyone dying or giving up |
| `Lineage.LineageManifests` | crates/kinbase/src/codebase.rs:1300-1317 | the worktree's manifests, then the register's ones whose path is their digest, each digest not seen before it once |
| `Lineage.ManifestHeads` | crates/kinbase/src/codebase.rs:1321-1346 | the known digests no known manifest names as a parent |
| `Lineage.PublicationsFormAChain` | crates/kinbase/src/codebase.rs:1241-1289 | without a crash, publications from any worktrees form one chain, with one head for every worktree whose stores a scan reads whole |
| `Lineage.KnownLineage` | crates/kinbase/src/codebase.rs:1241-1346 | with crashes between the two writes and any checkouts, no manifest is its own ancestor and each known one leads to a head |
| `Lineage.PublishingCollapses` | crates/kinbase/src/codebase.rs:1252-1289 | a publication, finished or torn, leaves its worktree one head over all the heads it saw |
| `Lineage.RegisteredIsHeld` | crates/kinbase/src/codebase.rs:1262-1289 | whatever crashes between the two writes, while no files are replaced a registered manifest is in some worktree |
| `Merkle.MerkleRoot` | crates/kinbase/src/codebase.rs:1434-1452 | the level loop computes the root of the pairing and ends |
| `Merkle.RootIsTree` | crates/kinbase/src/codebase.rs:1434-1452 | the root is that of the least binary tree over the leaves, read from the top: two halves hashed together, and a half alone with itself |
| `Merkle.RootAndCountFixLeaves` | crates/kinbase/src/codebase.rs:1257-1259 | equal event counts and equal roots mean equal events, or two inputs with one digest are exhibited |
| `Merkle.OddLastRepeats` | crates/kinbase/src/codebase.rs:1444-1448 | without the count they do not: an odd last leaf may be there twice |
| `DreamFilter.Filter.Sift` | crates/kinbase/src/dream.rs:219-240 | which admissions stay listed, how many are counted, and what is settled afterwards; by the admissions' own fields in `CheckpointSettling.TakenOffExactly` |
| `DreamFilter.Filter.ReencodeCheckpoint` | crates/kinbase/src/dream.rs:205-250 | the record in the current form, or that it decided nothing |
| `DreamFilter.Filter.Keep` | crates/kinbase/src/dream.rs:167-203 | what becomes of a line, with the whole state of the filter |
| `DreamCompaction.CopyLines` | crates/kinbase/src/dream.rs:256-286 | every whole line from the start on as far as the reads find them, through the filter |
| `DreamCompaction.LedgerPath.CopyTwice` | crates/kinbase/src/dream.rs:325-356 | for every interleaving of appenders with the unlocked copy, both copies together are one pass over the final lines |
| `DreamCompaction.LedgerPath.Compact` | crates/kinbase/src/dream.rs:289-397 | the ledger afterwards: untouched when nothing was dropped or re-encoded, else one pass over the whole lines and the terminated torn tail; a replaced ledger is left alone |
| `DreamLaws.FirstOfEachIsKept` | crates/kinbase/src/dream.rs:169-203 | without checkpoints, exactly the unreadable lines and the first line of each identity are kept, in order, as written |
| `DreamLaws.WrittenReadsBack` | crates/kinbase/src/dream.rs:276-282 | a compacted ledger reads back as the lines that were kept |
| `DreamLaws.LedgerIsItsLines` | crates/kinbase/src/dream.rs:256-286 | a ledger is its whole lines, each with its newline, and a tail without one |
| `CheckpointSettling.TornTailIsKept` | crates/kinbase/src/dream.rs:345-356 | what a compaction swaps in reads as the lines one pass keeps and the torn tail as a line of its own |
| `CheckpointSettling.DroppedExact` | crates/kinbase/src/dream.rs:167-203 | every line that is not blank is kept or counted as dropped |
| `CheckpointSettling.ReencodedExact` | crates/kinbase/src/dream.rs:189-196 | and the checkpoints counted as re-encoded are those whose text changed |
| `DreamLaws.CompactedIsSettled` | crates/kinbase/src/dream.rs:289-397 | compacting a newline-terminated ledger without checkpoints again changes nothing |
| `DreamCheckpoints.ReencodingConserves` | crates/kinbase/src/dream.rs:205-250 | listed plus counted admissions are conserved, what stays listed was not settled before, and what settled nothing stays in order |
| `CheckpointSettling.SettledExact` | crates/kinbase/src/session.rs:4472-4479 | a receipt is settled before a line exactly when an earlier checkpoint of the session holds an admission of it whose state is neither pending nor abandoned |
| `CheckpointSettling.TakenOffExactly` | crates/kinbase/src/dream.rs:219-240 | a rewritten checkpoint lists exactly the admissions that do not repeat such a decision of an earlier line or of its own, in order, and counts the others |
| `CheckpointSettling.UndecidedStay` | crates/kinbase/src/session.rs:4472-4479 | so an admission that is pending or abandoned, or names no receipt, stays listed |
| `DreamCheckpoints.DroppedListsNothingNew` | crates/kinbase/src/dream.rs:240-243 | a checkpoint dropped as empty lists only receipts settled before |
| `DreamCheckpoints.ReencodedWellFormed` | crates/kinbase/src/dream.rs:189-196 | a well-formed checkpoint can be written back exactly when its count stays an integer the canonical rule allows |
| `CheckpointPass.PassExact` | crates/kinbase/src/dream.rs:167-203 | for every ledger: of each identity the first line that decided something is kept, rewritten when it can be and else as written, and every receipt read is settled |
| `CheckpointLedger.SameDecisionNormal` | crates/kinbase/src/session.rs:2219-2236 | one checkpoint id means one decision, as it reads |
| `CheckpointLedger.StillListedExact` | crates/kinbase/src/dream.rs:167-250 | after a pass a receipt is listed exactly when a line that stands said it |
| `CheckpointLedger.NothingInvented` | crates/kinbase/src/dream.rs:167-250 | compacting lists no settled receipt the ledger did not, whatever it holds |
| `CheckpointLedger.ReceiptsConservedExact` | crates/kinbase/src/dream.rs:167-250 | it loses none exactly when whatever a shadowed line says a standing line says too: a line is shadowed when it counts under an earlier line's identity and one of the two is kept as written, under an id it states |
| `CheckpointLedger.ReceiptsConserved` | crates/kinbase/src/dream.rs:167-250 | so each settled receipt stays listed when no shadowed line says more than the line that shadows it |
| `CheckpointLedger.RelistedOnce` | crates/kinbase/src/dream.rs:205-250 | the rewritten lines list no settled receipt twice when no two receipts read alike |
| `LostReceipts.ACompactionLosesAReceipt` | crates/kinbase/src/dream.rs:190-202 | a ledger of two checkpoints whose compaction keeps the unwritable one and loses the receipt the other lists |
| `CheckpointLaws.RewrittenQuiet` | crates/kinbase/src/dream.rs:205-250 | a rewritten line stays as it is exactly when it lists nothing listed before it, or its count would no longer fit |
| `CheckpointLaws.CompactedAgainExact` | crates/kinbase/src/dream.rs:289-397 | for every newline-terminated checkpoint ledger, compacting again is a no-op exactly when each line that stands stays as it is behind what the standing lines before it list |
| `CheckpointLaws.CompactedCheckpointsAreSettled` | crates/kinbase/src/dream.rs:289-397 | it is one, unwritable lines or not, whenever no two settled receipts of the ledger differ only by normalization and every count fits |
| `NfcMerges.SecondCompactionChanges` | crates/kinbase/src/dream.rs:208-250 | a ledger with two such receipts whose second compaction does change it |
| `TextRule.Validate` | crates/kinbase/src/json.rs:213-238 | text passes exactly when every character is allowed |
| `TextRule.Fold` | crates/kinbase/src/json.rs:249-260 | folding puts a space for every character the rule rejects and keeps the others |
| `JsonValue.ValidateExact` | crates/kinbase/src/json.rs:159-208 | the validator accepts exactly the well-formed values |
| `JsonValue.RefusalIsTrue` | crates/kinbase/src/json.rs:159-208 | a refusal names a rule the value breaks, at the nearest member around the place or the key two members normalise to |
| `JsonWriter.WriteString` | crates/kinbase/src/json.rs:134-157 | pushes the quoted string with the escape set of RFC 8785 section 3.2.2.2; that this is the one shortest form is `JsonShortest.ShortestIsQuoted` |
| `JsonWriting.CanonicalUnchecked` | crates/kinbase/src/json.rs:85-131 | the recursive writer pushes exactly the canonical text |
| `JsonWriter.CanonicalPrintsNormal` | crates/kinbase/src/json.rs:85-131 | normalising and sorting on the way out is writing the normal value as it stands |
| `JsonShortest.QuoteIsShortest` | crates/kinbase/src/json.rs:134-157 | no string between quotes that reads as a text is shorter than the one written for it |
| `JsonShortest.ShortestIsQuoted` | crates/kinbase/src/json.rs:134-157 | and with lowercase escapes no other is as short |
| `JsonShortest.PlainIsItself` | crates/kinbase/src/json.rs:149-152 | text without a quote, a backslash or a control character is written as itself |
| `JsonShortest.ControlIsEscaped` | crates/kinbase/src/json.rs:138-148 | a control character takes its two-character escape, or `\u00` and two lowercase digits |
| `JsonShortest.CanonicalIsShortest` | crates/kinbase/src/json.rs:85-131 | no well-formed text, in whatever spacing and escapes, that denotes the normal value is shorter than its canonical text |
| `KeyOrder.SortOrders` | crates/kinbase/src/json.rs:106-114 | members come out in UTF-16 order of their keys, none lost or added |
| `KeyOrder.LexExact` | crates/kinbase/src/json.rs:106-114 | keys compare by the first code unit where they differ, and a proper prefix comes first |
| `KeyOrder.SurrogatesFirst` | crates/kinbase/src/json.rs:106-114 | so characters beyond the basic plane come before its last ones, unlike in the order of code points |
| `Utf8.EncodeCharExact` | crates/kinbase/src/json.rs:62-67 | canonical bytes are UTF-8: a first byte that tells the length, continuation bytes, the character's code, in the fewest bytes |
| `JsonNormal.NormalKeepsMeaning` | crates/kinbase/src/json.rs:85-131 | the normal value says what the value says |
| `JsonNormal.MeaningDeterminesNormal` | crates/kinbase/src/json.rs:85-131 | a meaning has one normal value |
| `JsonStrict.CanonicalReadsBack` | crates/kinbase/src/json.rs:62-67 | the strict parser accepts canonical text and returns the normal value |
| `JsonStrict.CanonicalAgain` | crates/kinbase/src/json.rs:62-67 | canonicalising that again changes nothing |
| `JsonStrict.CanonicalBytesUnique` | crates/kinbase/src/json.rs:62-67 | two accepted values have equal bytes exactly when their NFC trees are equal as unordered objects |
| `JsonStrict.ParseStrictExact` | crates/kinbase/src/json.rs:463-474 | what the strict parser does with every well-formed text: duplicate, invalid, refused or the value |
| `StrictErrors.DuplicatesComeFirst` | crates/kinbase/src/json.rs:463-486 | two keys that normalise alike are answered as a duplicate, never by the canonical rule, and an accepted value has none at any depth |
| `StrictErrors.AlikeExact` | crates/kinbase/src/json.rs:488-498 | when two written keys count as one |
| `JsonParser.ParseExact` | crates/kinbase/src/json.rs:463-474 | the reader the strict parser stands on returns what the text denotes, on every well-formed text |
| `DuplicateKeys.ReadString` | crates/kinbase/src/json.rs:521-536 | the raw string up to its closing quote |
| `DuplicateKeys.RejectDuplicateKeys` | crates/kinbase/src/json.rs:500-553 | the stack-and-flag loop decides `Scan` |
| `DuplicateKeys.ScanExact` | crates/kinbase/src/json.rs:500-553 | on every well-formed text the scan refuses exactly when some object has two keys with one identity |
| `EscapeExact.PushUnits` | crates/kinbase/src/json.rs:353-362 | one four-digit escape for each UTF-16 unit |
| `EscapeExact.EscapeText` | crates/kinbase/src/json.rs:349-364 | the rendering, or the rule that refuses the value |
| `EscapeExact.UnescapeText` | crates/kinbase/src/json.rs:368-408 | the decoded text, or the first refusal |
| `EscapeExact.RoundTrip` | crates/kinbase/src/json.rs:349-424 | every value the renderer accepts comes back from its rendering |
| `EscapeExact.ReaderAcceptsOnlyRenderings` | crates/kinbase/src/json.rs:368-424 | every rendering the reader accepts is exactly what the renderer writes for the result |
| `EscapeExact.PlainIsItself` | crates/kinbase/src/json.rs:353-362 | printable ASCII without a quote or a backslash is rendered as itself |
| `EscapeExact.RenderingIsPrintable` | crates/kinbase/src/json.rs:353-362 | every rendering is printable ASCII without a quote |
| `Ingest.Reconciler.FindExisting` | crates/kinbase/src/ingest.rs:496-498 | the row of an id, else the row of the same content, an observed one first |
| `Ingest.Reconciler.SupersedeRows` | crates/kinbase/src/ingest.rs:571-587 | every observed row of the native id is superseded |
| `Ingest.Reconciler.RecordOne` | crates/kinbase/src/ingest.rs:379-622 | rows, renames and counters after one scanned record, with the tests of clock, revocation and canonical rule that set it aside |
| `Ingest.Reconciler.RetireRows` | crates/kinbase/src/ingest.rs:626-675 | what vanished is retracted or absent |
| `Ingest.Reconciler.Reconcile` | crates/kinbase/src/ingest.rs:379-675 | the whole run over rows and log |
| `IngestLaws.RunKeepsRows` | crates/kinbase/src/ingest.rs:379-675 | for any scan a run deletes no row, keeps what each identifies, makes only the listed moves, and leaves superseded and renamed rows so |
| `IngestOutcome.RunExact` | crates/kinbase/src/ingest.rs:379-675 | which rows there are after a run and what each says: a scanned row by its record, its content and what else of its native id is known; another one renamed, retracted, absent or as it was; a new one as read |
| `IngestOutcome.NoRenameIsMissed` | crates/kinbase/src/ingest.rs:588-612 | a new content under a new native id names no old one only when every vanished row of it was taken by another |
| `IngestOutcome.LoggedExact` | crates/kinbase/src/ingest.rs:379-675 | the log names a row exactly when the run moved its lifecycle |
| `IngestOutcome.InsertedExact` | crates/kinbase/src/ingest.rs:613-622 | the rows reported as inserted are as many as there are more |
| `IngestOutcome.SkippedExact` | crates/kinbase/src/ingest.rs:500-567 | the records reported as unchanged are those whose row was up to date |
| `IngestLaws.ExistingByContent` | crates/kinbase/src/ingest.rs:340-372 | a row that kept an older id is found by its content: the first observed one, else the first |
| `IngestLaws.RunSettles` | crates/kinbase/src/ingest.rs:379-675 | after a run every record of the scan is up to date and what vanished is withdrawn |
| `IngestLaws.SettledRunIsNoOp` | crates/kinbase/src/ingest.rs:379-675 | a run over such rows writes nothing |
| `IngestHistory.SkewExact` | crates/kinbase/src/time.rs:171-205 | a claim is skewed from five minutes and one whole second on, either way, each bound widened by the run's own move of the clock in one direction |
| `IngestHistory.AsideExact` | crates/kinbase/src/ingest.rs:385-495 | what sets a record aside, in milliseconds of its claim, its signer and its row |
| `IngestLaws.IngestingAgainIsNoOp` | crates/kinbase/src/ingest.rs:379-675 | ingesting the same scan again by the same clock and trust is a no-op |
| `IngestLaws.IngestingLaterExact` | crates/kinbase/src/ingest.rs:379-675 | by another clock or trust it is one exactly when every record the first run set aside and the second does not is in the rows already, up to date |
| `IngestHistory.AClaimComesDue` | crates/kinbase/src/ingest.rs:385-410 | a claim six minutes ahead is set aside, and inserted by a run of the same scan two minutes later |
| `IngestLaws.RenamesPair` | crates/kinbase/src/ingest.rs:588-612 | renames pair vanished and new rows one to one with equal digests |
| `IngestHistory.HistoryKeepsRows` | crates/kinbase/src/ingest.rs:379-675 | over any history of runs no row is deleted and no ended row comes back |
| `IngestHistory.ObservedAfter` | crates/kinbase/src/ingest.rs:496-622 | which rows of a scanned native id a run leaves observed |
| `IngestHistory.OneCurrentExact` | crates/kinbase/src/ingest.rs:527-538 | at most one stays observed exactly when the content is new, had ended, or no other content was observed |
| `IngestHistory.TwoCurrent` | crates/kinbase/src/ingest.rs:530-538 | a history of four runs that leaves two |
| `Splice.OccurrenceCount` | tools/materialize_amendment_001.py:51-60 | the number of places where the needle stands, overlaps included |
| `Splice.FindMixed` | tools/materialize_amendment_001.py:518-525 | a refusal exactly when rows at one offset are not all insertions |
| `Splice.SpliceRows` | tools/materialize_amendment_001.py:527-538 | the ascending stream, or the overlap that stops it |
| `Splice.MaterializePath` | tools/materialize_amendment_001.py:516-538 | sorted, checked and spliced, or the first error |
| `Splice.StreamIsWriteEach` | tools/materialize_amendment_001.py:527-538 | the stream equals the writes applied one at a time in descending order, and is as long as the base plus what the writes add |
| `Splice.StreamExact` | tools/materialize_amendment_001.py:516-538 | the stream holds exactly the base bytes outside the writes, in order, and every new body at its offset in ordinal order; its length is the base's plus what the writes add |
| `Sections.ContainingHeading` | tools/materialize_amendment_001.py:260-272 | the last heading that starts before the source |
| `Sections.SectionExtent` | tools/materialize_amendment_001.py:275-288 | the bytes after a heading up to the next one not below it |
| `Sections.ContainedExact` | tools/materialize_amendment_001.py:458-473 | a source lies in its section exactly when it starts past the heading line and no heading at that level or above starts inside it |
| `Sections.HeadingExact` | tools/materialize_amendment_001.py:260-288 | a heading is one to six hash marks, a space and a byte more, and its level is their number |
| `Batches.RequestBatches` | crates/kinbase/src/classifier.rs:113-151 | the batches of the greedy packing, or the size that exceeds the limit |
| `Batches.PackFailsExactly` | crates/kinbase/src/classifier.rs:133-144 | packing fails exactly when one observation alone does not fit |
| `Batches.PackIsGreedy` | crates/kinbase/src/classifier.rs:116-131 | no batch could have taken the first observation of the next |
| `Batches.PackingIsOptimal` | crates/kinbase/src/classifier.rs:110-151 | for well-formed observations the batches are the input in order, each fits, and no cut into fitting requests has fewer |
| `Batches.LengthOfRequest` | crates/kinbase/src/classifier.rs:122-123 | a request takes its frame and its observations |
| `Evidence.BoundEvidence` | crates/kinbase/src/hooks.rs:1025-1067 | the lists hold the chosen items, and the omission is what was offered less what was kept |
| `Evidence.ContextGrows` | crates/kinbase/src/hooks.rs:1069-1088 | more items and a wider omission never make the framed, escaped context shorter |
| `Evidence.OmittedWouldCross` | crates/kinbase/src/hooks.rs:1036-1064 | an item left out would cross a ceiling if added to the final context |
| `Evidence.EarlierGroupsFirst` | crates/kinbase/src/hooks.rs:1036-1064 | unknowns are kept before facts and facts before company facts: what is kept of the first groups does not depend on the later ones |
| `Evidence.EvidenceIsBounded` | crates/kinbase/src/hooks.rs:1010-1088 | at most 32 items in order, and the context with its actual omission fits when the empty one does, for every evidence |
| `Framing.FrameArrivesExactly` | crates/kinbase/src/hooks.rs:1069-1113 | the host receives the frame that was written exactly when every text and key of the evidence is left alone, quoted, by normalization |
| `Framing.SizeIsOfTheString` | crates/kinbase/src/hooks.rs:1069-1088 | the size that is bounded is that of a JSON string which reads as what the host receives |
| `BrokenFrame.AFactBreaksTheFrame` | crates/kinbase/src/hooks.rs:1080-1113 | a fact whose frame arrives with a document a byte shorter than the frame says, and no JSON text |

## Left out

- UTF-8 decoding errors, the nesting limit of the JSON reader and text that is not well-formed JSON: the readers are stated on every well-formed text; a line that is not one is simply unreadable.
- `LedgerAppends.RunReadsExactly`: its runs leave out an indexed append behind a torn tail that held something to index, since the answer is then not the scan's; `LedgerAppends.ReadableTornTailIsLost` says what it is.
- `DreamFilter.Filter.Keep`: the wrap-around of `admissions_settled` at 64 bits is not modelled; the count is unbounded.
- `Evidence.BoundEvidence`: the lists are pushed and popped as the source does; each is stated through the items it holds.
- `LedgerStore.Ledger.Append`: the store's unchecked write when the index is behind, and an absent ledger file, are those of an empty ledger.
- `Lineage.PublicationsFormAChain`: publications that see more than 10,000 manifests in a store, of which the scan reads 10,000.
- `Ingest.Reconciler.RetireRows`: visits rows in the order the query answers them; the source groups them by native id, so the order of its audit lines is not modelled.
- `AdmissionJournal.MarkersRefuse`: a journal file that is no fan-out marker and carries a state recovery acts on would be taken for an entry; fan-out markers state none of those.
- `Ingest.Reconciler.RecordOne`: whether a record's row obeys the canonical rule is a field of the record; the audit, quarantine and report lists are not modelled.
- `Turnstile.RunsAreSafe`: the retry loops are a state machine with one step for each system call, not loops over a file descriptor.
- Admission: extra receipt members, the revocation fields of a receipt returned again, receipt directories of other repositories, and the casts between 64-bit types.
- The heading-count, source-count and ATX-heading checks of the amendment tool, and its parsing of the amendment's tables and quoted blocks.
- `adopt_legacy_identities` and the scan adapters: a row adopted from an older identity keeps its id, and how it was adopted is not modelled.
- Ed25519, SHA-256 beyond what is assumed above, SQLite beyond one transaction, file modes, `fsync`, symbolic links, the clock and the network.
- Secret masking, word lists, output shaping and command dispatch: long, and branch by branch.
