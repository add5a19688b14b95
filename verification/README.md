# Verified model of the dialer's core algorithms

A Dafny model of the parts of a call-centre dialer (a TypeScript API and a Go dialer)
whose correctness is not plain from reading one function:

- the tamper-evident audit: a Merkle tree with inclusion proofs, canonical JSON in its
  TypeScript and Go dialects, the canonical string of an audit row, the row chain and
  its verifier, and the command-line verdict over signed daily attestations;
- the adaptive dial-level controller and its loop over stored state;
- the FCC drop gate, its recovery and its reconciler;
- batched rewrites of a list of leads by a moving cursor;
- the CSV printer, rendezvous re-pinning of campaigns, and the do-not-call check with
  its bulk import.

Check it with `dafny verify dfyconfig.toml`.

## How to read it

Code that changes state is a method - of a class where the source has an object or a
store - proved equal to a function of the old state; the theorems are lemmas about that
function. JsonText, AuditFields, AdaptExact, AdaptState, DropGateExact, ListRows and DncExact
say once more what these functions do, in columns, characters and numbers. One file per
component:

| files | component |
|---|---|
| Digests, Merkle, MerkleTheorems | bytes and hash functions, the tree, its theorems |
| Json, JsonReader, JsonMeaning, JsonText, JsonDialects, JsonBuilder | serialisers, a reader of RFC 8259 (number literals opaque), meaning, the characters printed, where the dialects agree, the Go buffer loops |
| AuditRow, AuditFields, AuditTwins, AuditParity, HashChain, AuditVerifier, AuditCli | canonical rows, reading their strings, rows that share a string, the row strings of the two languages, chains of hashes, the two verifiers |
| Adapt, AdaptExact, AdaptMonotone, AdaptConvergence | one decision, in numbers, its direction, one breached tick |
| AdaptLoop, AdaptRecovery, AdaptState, FlapWindow | whole runs above and below target, the saved state, flap pruning |
| DropGate, DropGateExact, DropGateRuns | the gate, its recovery and reconciler; in numbers; whole runs |
| LeadTable, ListOps, ListRows | tables and queries as functions; the loops; what is left in each row |
| Csv, Rebalancer, Dnc, DncImport, DncExact | the smaller pieces |

Choices that the statements rest on:

- A hash is an arbitrary function. Where collision resistance would be needed, the
  theorem names the colliding inputs by a function of its own arguments, so it is not
  made empty by the mere existence of collisions. Row hashes and the nodes of an
  inclusion path are byte strings of any length; decoding them from hex is not modelled.
  The command-line tool reads a row without a row hash as the empty string.
- A number in JSON is its literal, taken to be the same in both languages; they differ on
  negative zero, which JSON.stringify writes as 0 and Go as -0. Text is a sequence of
  UTF-16 units (TypeScript) or of Unicode scalar values (Go); both dialects sort keys by those units. Members have
  distinct keys, as objects and maps do. UTF-8 encoding is not modelled; its byte order,
  in which Go sorts, is the order of scalar values.
- Controller and gate compute over exact reals; stored decimals keep their value.
- One clock reading per call, single-threaded steps, and reads and writes that succeed,
  except for the failures that a theorem names.
- A database table is a sequence of rows; affected rows are matched rows.
- The score of a campaign on a node, phone normalisation, signature checks, Bloom filter
  collisions and query answers are parameters.

Where the code differs from its comments the model follows the code. Results that a
maintainer may want to know: the Merkle root is that of RFC 6962 only for sizes that are
powers of two; a NULL text and the literal mark give one canonical string, so a row
rewritten from one to the other is not noticed; `verifyInclusion` accepts indexes beyond
the size; the command-line tool does not walk the rows, though its header says it does,
and does not compare them with the attested first and last hashes, which an accepted
export has exactly when the list behind the attested root has; a single row without a
row hash passes for an empty day; over a positive integral a breach can raise the dial
level past what a quiet tick holds; the drop-gate key can outlive the engagement when
the release threshold exceeds the soft-return threshold, and with a soft cap below 0.10
the gate flips in and out of the soft breach; the synchronous purge can skip leads when
its timestamp was used before; the re-pin names campaigns without their tenant; state
do-not-call imports feed only the importing tenant's filter, and an expired entry is not
renewed by importing it again; a fast cut before the first tick does away with the
warm-up; the Go and TypeScript serialisers differ on ampersands and angle brackets, and
their row strings on times with microseconds.

## Model

| member | source | states |
|---|---|---|
| Merkle.BuildMerkleRoot | shared/lib/merkle.ts:48-52 | the loop over levels computes the root defined by recursion on levels; `MerkleTheorems.EmptyRootExact` and `RootMatchesRfcExact` say which bytes are hashed |
| Merkle.ReduceNodes | shared/lib/merkle.ts:142-157 | the padded pairwise reduction computes that recursion |
| Merkle.ReduceWithProof | shared/lib/merkle.ts:163-183 | the same root, and the path is extended by the siblings of the target, level by level |
| Merkle.BuildWithProof | shared/lib/merkle.ts:58-73 | a range error exactly outside 0..n-1; otherwise the root of the list and the genuine path |
| Merkle.VerifyInclusion | shared/lib/merkle.ts:81-108 | the loop accepts exactly when hashing up by the bits of the index reaches the root |
| MerkleTheorems.AcceptanceExact | shared/lib/merkle.ts:81-157 | for every index, every row hash and every path, of whatever byte strings: the genuine pair is accepted, and anything else accepted exhibits a hash collision |
| MerkleTheorems.InclusionSound | shared/lib/merkle.ts:81-157 | soundness with position binding: a proof accepted for an index in range, whatever byte strings it is made of, is for that row and consists of its genuine siblings, one digest per level, or a collision is exhibited |
| MerkleTheorems.InclusionComplete | shared/lib/merkle.ts:58-108 | what the builder returns is accepted against the root of the list |
| MerkleTheorems.GenuineInRange | shared/lib/merkle.ts:163-183 | the genuine proof of an index in range is that row and the builder's path, as long as the tree is high |
| MerkleTheorems.IndexOutOfRangeAccepted | shared/lib/merkle.ts:81-108 | the verifier does not compare the index with the size: an index one whole tree width further on or back, negative ones included, is accepted too |
| MerkleTheorems.RootsEqualExact | shared/lib/merkle.ts:142-157 | two lists have one root exactly when the tree repeats them to one list, or one has no rows and the other a single empty row, or a collision is exhibited |
| MerkleTheorems.RootBindsAtEqualSize | shared/lib/merkle.ts:142-157 | equal roots of lists of one size mean equal lists, or a collision is exhibited |
| MerkleTheorems.RootBindsEnds | shared/lib/merkle.ts:142-157 | equal roots of lists of any sizes mean the same first and the same last row, or a collision is exhibited |
| MerkleTheorems.RepeatedLastRowSameRoot | shared/lib/merkle.ts:146-157 | for odd sizes from three on, repeating the last row leaves the root unchanged |
| MerkleTheorems.RootMatchesRfcExact | shared/lib/merkle.ts:142-157 | the root is the MTH of section 2.1 of RFC 6962, in the bytes 0x00 and 0x01 of the RFC, for sizes that are powers of two, and for no other size without an exhibited collision; the header comment claims it for all |
| MerkleTheorems.RootIsMthOfStretched | shared/lib/merkle.ts:142-157 | for every size the root is the RFC 6962 hash of the list with its repetitions written out |
| MerkleTheorems.StretchedExact | shared/lib/merkle.ts:146-148 | the list is repeated to itself exactly when its size is a power of two |
| MerkleTheorems.StretchedKeepsEnds | shared/lib/merkle.ts:146-157 | the repetition starts with the first row and ends with the last |
| MerkleTheorems.EmptyRootExact | shared/lib/merkle.ts:42-49 | an empty list has the hash of one zero byte for its root, not that of no bytes as in the RFC |
| JsonMeaning.ThrowsExact | shared/lib/jcs.ts:29-44 | serialising fails exactly when a non-finite number or an unsupported value occurs somewhere |
| JsonReader.ValueReads | shared/lib/jcs.ts:29-71 | a reader of section 4 of RFC 8259 reads back any serialised value, with its keys sorted, whatever text follows |
| JsonMeaning.RoundTrip | shared/lib/jcs.ts:25-71 | the output read back whole is the value with its keys sorted, which has the same meaning; `JsonText.TextKeysAscend` says how they are sorted |
| JsonMeaning.NormalizeKeepsMeaning | shared/lib/jcs.ts:66-71 | sorting keys at every depth changes no meaning, objects being maps |
| JsonMeaning.CanonicalExact | shared/lib/jcs.ts:29-71 | two serialisable values have one canonical text exactly when they mean the same: injective, and blind to the order in which keys were inserted |
| JsonMeaning.CanonicalNoControls | shared/lib/jcs.ts:53-60 | no output holds a character below 0x20 |
| JsonText.TextKeysAscend | shared/lib/jcs.ts:66-71 | read back, the text holds the keys of every object, at every depth, in ascending order: at the first place where two keys differ the earlier one has ended or has the smaller character |
| JsonText.UnitShape | shared/lib/jcs.ts:53-60 | a character is written as itself exactly when it is neither a control, a quote, a backslash, U+2028, U+2029 nor (TypeScript) a lone surrogate or (Go) an ampersand or angle bracket; as two characters exactly for the seven short escapes; otherwise as six, in lower-case hexadecimal |
| JsonText.PairShape | shared/lib/jcs.ts:53-60 | the two halves of a surrogate pair are left as they are |
| JsonText.NumberShape | shared/lib/jcs.ts:40-44 | a number is printed as its literal, which is made of digits, signs, points and exponent letters |
| JsonText.ErrorExact | shared/lib/jcs.ts:29-44 | a range error says that a number that is not finite occurs in the value, a type error that something unsupported does |
| JsonText.SampleText | shared/lib/jcs.ts:29-71 | one text written out in characters: keys inserted as b, a are printed as a, b, with an escaped quote, an array and the three words |
| JsonDialects.DialectsAgreeExact | shared/lib/jcs.ts:53-60 | on texts without surrogates, and with the same number literals, the TypeScript and the Go serialiser write the same exactly when no string or key holds an ampersand or an angle bracket |
| JsonBuilder.MarshalJcs | dialer/internal/audit/canonicalize.go:88-98 | the Go dispatcher computes the canonical text in its own dialect, or the first error |
| JsonBuilder.MarshalObject | dialer/internal/audit/canonicalize.go:100-127 | the buffer loop over sorted keys does |
| JsonBuilder.MarshalArray | dialer/internal/audit/canonicalize.go:129-145 | the buffer loop over elements does |
| AuditRow.IsoMicrosExact | dialer/internal/audit/canonicalize.go:47-54 | two times are formatted alike exactly when they agree to the microsecond |
| AuditRow.JcsJsonExact | dialer/internal/audit/canonicalize.go:74-83 | two JSON fields are written alike exactly when they mean the same, nil and failures being one; no separator occurs |
| AuditRow.CanonicalInjective | dialer/internal/audit/canonicalize.go:171-194 | a row without separators shares its canonical string with exactly the rows - any rows - that agree with it on every field, up to a NULL text against the literal mark |
| AuditRow.SepFreeTextsInjective | dialer/internal/audit/canonicalize.go:171-194 | where the texts of both rows have no separators the same holds whatever their previous hashes are |
| AuditRow.UpToNullExact | dialer/internal/audit/canonicalize.go:29-34 | that agreement is outright where one row has no NULL text, or neither holds the mark |
| AuditFields.CanonicalReads | dialer/internal/audit/canonicalize.go:171-194 | the string of a row without separators, split at the characters 0x1F, gives its fifteen fields in order, each readable by itself: numbers in at least twenty digits, the time to the microsecond, NULL as a backslash and an N, JSON with its meaning and ascending keys |
| AuditTwins.SepTwinCollides | dialer/internal/audit/canonicalize.go:171-194 | a row with a separator in any of its texts has a computed different row with the same string |
| AuditTwins.NullTwinCollides | dialer/internal/audit/canonicalize.go:29-34 | so has a row with a NULL text, or a text that is the NULL mark |
| AuditTwins.UnambiguousExact | dialer/internal/audit/canonicalize.go:171-194 | a row whose previous hash has no separator is told apart from all other rows by its string exactly when its texts have none and no nullable text is NULL or the mark |
| AuditParity.TimesAgree | api/src/services/audit/canonicalize.ts:62-67 | a time is written alike by both exactly when it has no microseconds beyond its milliseconds, and never longer by the TypeScript one |
| AuditParity.RowParityExact | api/src/services/audit/canonicalize.ts:172-190 | the TypeScript and the Go builder give a row one string exactly when its time is a whole number of milliseconds in a year of four digits and both JSON fields serialise and hold no ampersand or angle bracket (texts without surrogates, the same number literals); the header asks for the same bytes always |
| HashChain.CheckLinks | dialer/internal/audit/verifier.go:150-170 | the loop reports exactly the failures of the recursive definition, in order |
| HashChain.FailuresExact | dialer/internal/audit/verifier.go:150-170 | a failure is reported exactly when a row explains it: its id, its kind, what was expected there and what was found |
| HashChain.FailuresInOrder | dialer/internal/audit/verifier.go:150-170 | failures stand in the order of the rows, and a row's own hash before the one it names |
| HashChain.DayOkExact | dialer/internal/audit/verifier.go:150-170 | no failure exactly when every text hashes to its stored hash and every row names the stored hash before it, except after a stored zero hash |
| HashChain.VerifyDays | dialer/internal/audit/verifier.go:106-133 | the day loop stops at the first day that cannot be fetched, and otherwise gathers the failures of every day and counts days and rows |
| HashChain.RangeOkExact | dialer/internal/audit/verifier.go:106-133 | a range is error-free exactly when each day is: days are not linked to each other |
| HashChain.RangeInOrder | dialer/internal/audit/verifier.go:110-124 | and in the order of the days |
| HashChain.LinksBind | dialer/internal/audit/verifier.go:150-170 | chains that are in order and end in one stored hash hold the same texts counted from the end, or a failure of the hash is exhibited |
| AuditVerifier.VerifyDay | dialer/internal/audit/verifier.go:136-178 | tables other than audit_log are always in order, unread; audit_log gets the failures of its chain |
| AuditVerifier.VerifyRange | dialer/internal/audit/verifier.go:106-133 | failures, rows and days of the range, over the days of a table |
| AuditVerifier.RowsCheckedExact | dialer/internal/audit/verifier.go:106-133 | the rows counted for a range are all those fetched for its days, none for a table other than audit_log |
| AuditVerifier.RangeFailuresExact | dialer/internal/audit/verifier.go:106-178 | a failure is reported for a range exactly when a stored row of one of its days explains it: the digest of its canonical string against the hash stored, or the hash stored before it against the one it names |
| AuditVerifier.MissingEndsUnnoticed | dialer/internal/audit/verifier.go:149-170 | every stretch of an error-free day is error-free, so rows missing at either end go unnoticed |
| AuditVerifier.DeletionExact | dialer/internal/audit/verifier.go:149-170 | rows deleted from an error-free day leave no failure exactly when they stood at an end, or the row after them names the row before them, or that row's stored hash is the zero hash |
| AuditVerifier.DeletionNoticed | api/prisma/migrations/20260507000200_c03_hash_triggers/migration.sql:21-22 | row deletion is detectable inside a day: were it unnoticed, a collision or a text that hashes to zero is exhibited |
| AuditVerifier.TwinUnnoticed | dialer/internal/audit/verifier.go:149-170 | a row exchanged for its twin leaves an error-free day error-free |
| AuditVerifier.ChainBinding | dialer/internal/audit/verifier.go:136-178 | an error-free day without separators binds any other error-free day with its last stored hash, whatever that day's rows hold: counted from the end the rows agree up to NULL against its mark, outright where there is no NULL text, or a collision or a text that hashes to zero is exhibited |
| AuditCli.VerifyArchive | scripts/verify-audit-chain.ts:227-326 | the loop over days reports the findings and the exit code of a walk defined day by day |
| AuditCli.VerdictExact | scripts/verify-audit-chain.ts:247-326 | exit 1 exactly when an attestation has no inner object; exit 0 exactly when every day is attested, validly signed, has the attested root (from a local export) and names the last row hash of the day before |
| AuditCli.TamperedIsReported | scripts/verify-audit-chain.ts:247-306 | the verdict is tampered exactly when some finding is not OK |
| AuditCli.FindingsExact | scripts/verify-audit-chain.ts:243-307 | a finding is made exactly when it is true of its day: status and reason for a missing attestation, a break with the latest attested day before, an invalid signature, a wrong root, a right one |
| AuditCli.FindingsInOrder | scripts/verify-audit-chain.ts:247-310 | findings stand by day, and within a day in the order of the checks, none twice |
| AuditCli.ExportsBind | scripts/verify-audit-chain.ts:286-307 | two exports accepted against one set of attestations have, on every day, lists of row hashes that the tree repeats alike, with the same first and last one, and the same list where their counts agree; or a collision is exhibited |
| AuditCli.RepeatedRowUnnoticed | scripts/verify-audit-chain.ts:286-307 | counts are not attested: repeating the last row of an odd day never changes the verdict |
| AuditCli.EndsAttestedExact | scripts/verify-audit-chain.ts:250-306 | the first and last hash in an attestation are those of an accepted export exactly when they are those of the list that the attested root was built from, or a collision is exhibited; the tool compares neither |
| AuditCli.AttestedLastHashUnread | scripts/verify-audit-chain.ts:250-306 | an input on the failing side: an accepted day of one row that does not end in the attested last hash |
| AuditCli.PrevHashesUnread | scripts/verify-audit-chain.ts:286-307 | the verdict depends on the row hashes alone, whatever previous hashes the exported rows name |
| AuditCli.BrokenWalkUnnoticed | scripts/verify-audit-chain.ts:286-307 | so the walk over rows announced in the header (line 18) is not made: in any day of two rows or more a row can be made to name another previous hash, and the verdict stays |
| AuditCli.HashlessRowUnnoticed | scripts/verify-audit-chain.ts:292-303 | a single row without a row hash passes for a day without rows |
| Adapt.QuantizeNearest | dialer/internal/adapt/engine.go:125-139 | quantizing gives the nearest multiple of 0.05, half way the one further from zero, and fixes every multiple |
| Adapt.DecideBounded | dialer/internal/adapt/engine.go:75-108 | every decision keeps the level in [1, max], a maximum below 1 counting as 1, and the integral in its clamp, and writes only grid points or an off-grid maximum |
| Adapt.TargetTapers | dialer/internal/adapt/target.go:17-34 | the target lies between the configured percentage and one and a half times it and never rises with time |
| AdaptExact.TargetExact | dialer/internal/adapt/target.go:17-34 | the target in numbers: the configured percentage, or with both ends of a tapered shift one and a half times it before the start and a straight line from there down to it at the end |
| AdaptExact.HoldExact | dialer/internal/adapt/average.go:22-48 | inside the hold band the level stays, the integral keeps 0.95 of itself, and nothing is published |
| AdaptExact.PiExact | dialer/internal/adapt/average.go:22-92 | outside it, in numbers: the new level is within half a grid step of level + 0.05 err (1 +- intensity/100) + integral + 0.005 err seconds brought between 1 and the maximum, the integral gives back 0.01 of what that cuts off and stays within 0.5, and from the grid the label and the write say which way the level went |
| AdaptExact.HardExact | dialer/internal/adapt/hardlimit.go:17-55 | the hard limit in numbers: at or above the target down by 0.20 (1 - intensity/100) with LowerHard, below it up by 0.05 (1 + intensity/100) with Raise, within half a grid step and the bounds; no integral |
| AdaptExact.UnderTargetStep | dialer/internal/adapt/hardlimit.go:33-55 | below the target, on the grid, with any validated intensity: exactly one grid step up, as far as the maximum |
| AdaptConvergence.BreachStep | dialer/internal/adapt/average.go:22-92 | one breached tick, back-calculation included: an integral above zero falls by the computed descent or to its clamp; one at zero or below stays there, and falls by as much unless the floor is reached; a level at the floor stays there; and from an integral of -0.025 down the level loses a grid step or is at the floor |
| AdaptConvergence.HardStep | dialer/internal/adapt/hardlimit.go:17-55 | an over-target tick takes at least three grid steps off, or reaches the floor; `AdaptExact.HardExact` has the other side |
| AdaptMonotone.MoreIntensity | dialer/internal/adapt/engine.go:109-122 | a higher intensity never decides on a lower level, in any mode |
| AdaptMonotone.MoreDrops | dialer/internal/adapt/engine.go:75-108 | when both decisions are outside the deadband more drops never decide on a higher level |
| AdaptMonotone.MoreDropsExact | dialer/internal/adapt/average.go:22-92 | for any two numbers of drops: the level does not rise with drops exactly when both decisions or neither are outside the deadband, or the stored integral stays below (above) the bound that carries the one outside past the level the other holds |
| AdaptMonotone.MoreDropsSmallIntegral | dialer/internal/adapt/average.go:22-92 | from a level on the grid an integral of at most 0.025 either way is within those bounds |
| AdaptMonotone.MoreDropsRaisesLevel | dialer/internal/adapt/average.go:22-92 | an input on the failing side: with an integral of 0.5, 1.00 percent holds the level at 1.0 and 1.31 percent, over the target, raises it to 1.45 |
| AdaptLoop.CampaignKeys.RunTick | dialer/internal/adapt/decision.go:29-184 | a tick reads the two keys and the gauge, decides, and leaves both keys as the step function says; `AdaptState.TickReads` and `TickWrites` say what that is |
| AdaptLoop.CampaignKeys.ApplyFastCut | dialer/internal/adapt/fastcut.go:92-113 | a cut leaves both keys as the cut function says; `AdaptState.CutExact` says what that is |
| AdaptLoop.ReachableStates | dialer/internal/adapt/decision.go:96-230 | after any ticks and cuts from a cold start: a published level is the saved one, the level is in [1, max], the integral in its clamp, the runaway check silent |
| AdaptLoop.BreachReachesFloor | dialer/internal/adapt/average.go:22-92 | PI modes: a breach of the computed number of ticks brings the published level to 1.0 from any warm state, and any longer breach finds it there |
| AdaptLoop.OverTargetReachesFloor | dialer/internal/adapt/hardlimit.go:17-55 | hard limit: ceil((20 level - 20) / 3) over-target ticks do, and any more find it there |
| AdaptRecovery.UnderTargetRises | dialer/internal/adapt/hardlimit.go:33-55 | recovery of the hard limit: n ticks below the target bring a level on the grid up by 0.05 n, as far as the maximum |
| AdaptRecovery.UnderStep | dialer/internal/adapt/average.go:22-92 | one tick below the target by more than the band, back-calculation included: an integral below zero rises by the computed ascent or to its clamp; one at zero or above stays there, and rises by as much unless the top is reached; a level at the top stays there; and from an integral of 0.025 up the level gains a grid point or is at the top |
| AdaptRecovery.RecoveryReachesTop | dialer/internal/adapt/average.go:22-92 | recovery of the PI modes: from any warm state a run of the computed number of ticks below the target by more than the band brings the level to the maximum (or the grid point just below it), and it is there after every longer run |
| AdaptLoop.DeadbandHolds | dialer/internal/adapt/average.go:36-48 | PI modes: while drops stay within the hold band the level does not move and the integral is bled by 0.95 a tick |
| AdaptLoop.InhibitedExact | dialer/internal/adapt/warmup.go:23-31 | after any run of ticks and cuts from a cold start the next tick is held back exactly when answered calls are asked for, the run began with a tick and not a cut, and every tick so far and the next come within the configured seconds of the first |
| AdaptLoop.InhibitedTickHolds | dialer/internal/adapt/decision.go:110-169 | a tick that is held back changes neither level nor integral and publishes nothing |
| AdaptState.ValidatedExact | dialer/internal/adapt/config.go:37-75 | validation changes exactly the configurations out of range and leaves one in range: each field at the nearer bound, a hold band or tick that is not positive at 0.3 or 15 |
| AdaptState.WithinExact | dialer/internal/adapt/warmup.go:23-31 | a tick is within the warm-up exactly when fewer milliseconds have passed since its start than it lasts |
| AdaptState.TickReads | dialer/internal/adapt/decision.go:60-147 | what a decision is made from: the configuration, the gauge or the percentage last seen, the saved level and integral, the configured level at the first tick |
| AdaptState.TickReadsPublished | dialer/internal/adapt/decision.go:96-111 | a level published by whomever goes before the saved one; one below 1 counts as none |
| AdaptState.TickWrites | dialer/internal/adapt/decision.go:150-190 | what a tick saves: the decided level and integral, its label, the percentage, the time and one tick more; from a level on the grid it publishes exactly a changed level |
| AdaptState.CutExact | dialer/internal/adapt/fastcut.go:92-113 | a cut publishes 1.00 and saves it with a zero integral, time and label, keeping every other field; where 1.00 is published it does nothing |
| AdaptState.ClampSinceExact | dialer/internal/adapt/decision.go:171-186 | over runs of ticks: the saved clamp time is set exactly while the level is at a bound, and is that of the tick that brought it there |
| FlapWindow.PruneFlaps | dialer/internal/adapt/fastcut.go:136-146 | the in-place compaction keeps exactly the recent times, in order, and touches nothing behind them |
| FlapWindow.KeptIsSuffix | dialer/internal/adapt/fastcut.go:136-146 | of times in order it keeps exactly the stretch inside the window |
| DropGate.Gate.Tick | dialer/internal/drop_gate/gate.go:141-218 | a tick leaves state, dwell, keys and log as the transition function says; `DropGateExact.TickExact` and `WritesExact` say what that is |
| DropGate.Gate.ForceRelease | dialer/internal/drop_gate/gate.go:243-270 | refused unless engaged; otherwise the gate is released by the operator |
| DropGate.Gate.Recover | dialer/internal/drop_gate/recovery.go:24-132 | a recovery leaves memory and key as the recovery function says; `DropGateExact.RecoverExact` and `RecoveredTimeExact` say what that is |
| DropGate.Gate.ReadEngagedAtFromStream | dialer/internal/drop_gate/recovery.go:136-157 | the scan finds the latest readable engagement among the last twenty entries |
| DropGate.Reconciler.Reconcile | dialer/internal/drop_gate/reconciler.go:77-148 | only severe drift sets the key; the gate's memory is left alone |
| DropGate.SevereExact | dialer/internal/drop_gate/reconciler.go:98-128 | drift is severe exactly when it is above one percent of the database count, none at all included |
| DropGateExact.DropsExact | dialer/internal/drop_gate/reconciler.go:157-194 | the count is the number of drops with a readable time in the last thirty days |
| DropGateExact.ReconcileExact | dialer/internal/drop_gate/reconciler.go:77-148 | a reconcile sets the key exactly when the counts differ by more than one percent of the database's; it changes nothing else |
| DropGateRuns.EngagedIsGatedAlways | dialer/internal/drop_gate/gate.go:290-396 | in every run of ticks, force-releases, recoveries and reconciles an engaged gate has its key set |
| DropGateRuns.KeyExactness | dialer/internal/drop_gate/gate.go:336-396 | without reconciles the key says whether the gate is engaged, in all runs, exactly when the release threshold does not exceed the soft-return threshold |
| DropGateRuns.ReleasesToNormalExact | dialer/internal/drop_gate/config.go:99-124 | that condition in the settings: the effective maximum is at most 1.10, or at most 0.50 above the soft cap; the default settings meet it |
| DropGateRuns.LogExactness | dialer/internal/drop_gate/gate.go:399-429 | the log alternates and ends in engage exactly when engaged, in all runs of ticks and force-releases, under the same condition |
| DropGateRuns.RecoverMakesKeyExact | dialer/internal/drop_gate/recovery.go:58-121 | from any store contents a recovery makes the key exact, and a set key engages |
| DropGateRuns.StaleKeyStays | dialer/internal/drop_gate/gate.go:336-396 | a key set while the gate is not engaged survives everything but a new engagement or a recovery |
| DropGateRuns.SafetyExact | dialer/internal/drop_gate/gate.go:162-195 | a counted tick at or above the maximum leaves the gate engaged and gated in every reachable state exactly when the effective maximum is at least 0.10 |
| DropGateRuns.ReleasesJustified | dialer/internal/drop_gate/gate.go:184-194 | in any run an engagement ends by a force-release, or by a counted tick below the release threshold after the dwell, into NORMAL or a soft breach as the soft-return threshold says, or by a recovery that finds no key |
| DropGateRuns.EngagementEnds | dialer/internal/drop_gate/gate.go:184-194 | for an engagement made in the run the dwell counts from the tick that made it |
| DropGateRuns.DwellHolds | dialer/internal/drop_gate/gate.go:184-194 | an engagement outlasts every tick of its dwell |
| DropGateRuns.LogJustifiedAlways | dialer/internal/drop_gate/gate.go:290-396 | engagements are logged at or above the maximum and automatic releases below both thresholds |
| DropGateRuns.EngagementBound | dialer/internal/drop_gate/gate.go:141-270 | (engagements - 1 - force-releases) x dwell <= elapsed time, in every run under a clock that does not go back |
| DropGateExact.DefaultsExact | dialer/internal/drop_gate/config.go:133-144 | zero settings become 1.00, 1.50 and 300; others stay |
| DropGateExact.ValidExact | dialer/internal/drop_gate/config.go:63-104 | which settings are valid, in numbers; under them the effective maximum is the override where one is set, and never above 3.00 |
| DropGateExact.ThresholdsExact | dialer/internal/drop_gate/config.go:99-124 | release a whole percent below the maximum, soft return half a percent below the soft cap, neither below 0.10 |
| DropGateExact.TickExact | dialer/internal/drop_gate/gate.go:141-218 | where a tick leads from every state, as an iff on percentage, count and dwell; nowhere under 100 answered |
| DropGateExact.SoftHysteresisExact | dialer/internal/drop_gate/gate.go:169-182 | in every run of counted ticks below the maximum the gate is in a soft breach exactly when drops have reached the soft cap and not fallen below the return threshold since - exactly when the soft cap is 0.10 or more, or not below the effective maximum |
| DropGateExact.SoftFlaps | dialer/internal/drop_gate/gate.go:169-182 | an input on the failing side: with a lower soft cap two ticks at the cap lead into the soft breach and out again |
| DropGateExact.WritesExact | dialer/internal/drop_gate/gate.go:290-429 | what a tick or force-release writes: on engaging the key, the time to the second and one entry; on a release to NORMAL it removes both keys and adds one entry that names who released; otherwise nothing |
| DropGateExact.RecoverExact | dialer/internal/drop_gate/recovery.go:35-124 | the recovered state in the counts: engaged exactly when the key is set or 100 drops >= max answered with at least 100 answered, in a soft breach exactly when that holds of the soft cap only; of the store only the key changes |
| DropGateExact.RecoveredTimeExact | dialer/internal/drop_gate/recovery.go:58-92 | the recovered time: none without the key, else the time key, else the latest readable engagement of the last twenty entries, else the present |
| DropGateExact.RestartKeepsEngagement | dialer/internal/drop_gate/recovery.go:24-132 | a restart after an engaging tick: whatever the counts, the gate is engaged again with the time of that tick, cut to the second |
| ListOps.Leads.ProcessReset | api/src/workers/list-ops.ts:53-96 | the loop leaves the table that one update of all live leads would, and writes their ids in order; `ListRows.ResetExact` says what is in the rows |
| ListOps.Leads.ProcessPurge | api/src/workers/list-ops.ts:160-198 | the same for the purge, even where its OFFSET query meets leads stamped with the same time before; `ListRows.PurgeExact` says what is in the rows |
| ListOps.Leads.PurgeListSync | api/src/lists/service.ts:485-513 | the loop with the MAX(id) cursor rewrites the first batch and then the live leads above the largest stamped id, each once, and returns their number |
| ListOps.RewritesExactlyLive | api/src/workers/list-ops.ts:53-96 | what both loops leave and write: live leads of the list rewritten, each once; `ListRows` has it in columns |
| ListRows.ResetExact | api/src/workers/list-ops.ts:53-67 | row by row: a lead of the tenant and list that is not deleted has status NEW, count 0 and no last call, with all else kept; no other row changes |
| ListRows.PurgeExact | api/src/workers/list-ops.ts:160-174 | row by row: such a lead has status DELETED and the time of the purge, with all else kept; no other row changes |
| ListRows.WrittenOnce | api/src/workers/list-ops.ts:53-96 | each such lead is written once, in order of id |
| ListRows.CountExact | api/src/workers/list-ops.ts:53-96 | the number reported is that of such leads |
| ListOps.SyncPurgeExact | api/src/lists/service.ts:485-513 | the MAX(id) cursor leaves the same table as the OFFSET cursor exactly when no lead stamped before with that very time stands in front of a live lead beyond the first batch |
| ListOps.StaleTableSkipsLead | api/src/lists/service.ts:500-512 | an input on the failing side: with batches of one, a lead stamped at the purge time carries the cursor past a live lead |
| ListRows.SyncPurgeRows | api/src/lists/service.ts:485-513 | row by row: the synchronous purge deletes every such lead except those past the first batch with an id below a lead of the list deleted at that very time before |
| ListRows.SyncWrittenOnce | api/src/lists/service.ts:485-513 | it writes exactly the rows it deletes, each once |
| Csv.RoundTripExact | api/src/lib/csv.ts:9-30 | a reader of section 2 of RFC 4180 recovers the header and every cell exactly when there is a column |
| Csv.ClosedRoundTripExact | api/src/lib/csv.ts:24-30 | a reader that lets a line break close the last record loses exactly the last row of a single column whose last cell is empty |
| Csv.QuotedExact | api/src/lib/csv.ts:9-16 | a cell is quoted exactly when it holds a comma, a quote or a line break; a null cell is empty |
| Csv.CellsExact | api/src/lib/csv.ts:24-29 | the cells: the headers, then for each row what it has under each header, empty where the key is missing or null |
| Csv.SampleFile | api/src/lib/csv.ts:7-30 | one file written out in characters |
| Rebalancer.NextHealthyNode | dialer/internal/affinity/rebalancer.go:43-71 | the loop returns the winning node, or none |
| Rebalancer.WinnerExact | dialer/internal/affinity/rebalancer.go:43-71 | the winner is the one eligible node that beats all others, those before it strictly; none exactly when none is eligible |
| Rebalancer.StrongestWins | dialer/internal/affinity/rebalancer.go:43-71 | in columns: the first of the ACTIVE nodes other than the failed one with the largest score times weight, a weight below one counting as one, in 64 bits |
| Rebalancer.OneNodeMore | dialer/internal/affinity/rebalancer.go:43-71 | inserting a node anywhere changes the winner only to that node; removing one that does not win changes nothing |
| Rebalancer.CampaignTable.RepinCampaigns | dialer/internal/affinity/rebalancer.go:189-288 | every row whose id is that of an idle campaign of the failed node is pinned to its target; both counters are exact |
| Rebalancer.CountsExact | dialer/internal/affinity/rebalancer.go:229-288 | the counters in columns: campaigns of the failed node with a call in progress, and those without that have a node to go to |
| Rebalancer.RepinExact | dialer/internal/affinity/rebalancer.go:254-256 | exactly the idle campaigns of the failed node move exactly when no other tenant's row with such an id is pinned elsewhere than the target |
| Rebalancer.StrandedMove | dialer/internal/affinity/rebalancer.go:254-256 | then, in columns, each campaign of the failed node without a call in progress is on the node chosen for its id, if there is one, and no other pin changes |
| Rebalancer.DistinctIdsNoBystander | dialer/internal/affinity/rebalancer.go:254-256 | where no two rows share a campaign id nothing else moves |
| Rebalancer.SharedIdMovesBystander | dialer/internal/affinity/rebalancer.go:254-256 | an input on the failing side: two tenants with one campaign id, and the second tenant's campaign is moved off its own node |
| Dnc.BloomMexistsPipeline | api/src/dnc/bloom.ts:88-120 | every source is a hit when the store is down; otherwise on an error or a one |
| DncExact.HitExact | api/src/dnc/bloom.ts:88-120 | a source is a hit exactly when the reply to its last command is an error or a one |
| Dnc.ConfirmedSources | dialer/internal/dnc/mysql.go:73-86 | the deduplicating loop returns the first occurrences in order |
| Dnc.DncCheck | api/src/dnc/check.ts:82-158 | the check computes the result defined from replies and database answer |
| Dnc.CheckAgrees | api/src/dnc/check.ts:82-158 | with filters that contain their lists the verdict is that of the table, whatever replies fail and whichever rows the limit leaves |
| Dnc.CheckExact | api/src/dnc/check.ts:82-158 | when nothing fails, and whatever the filters contain, the verdict is listed exactly when a row matches whose own source's filter answers yes |
| Dnc.FailureIsClosed | api/src/dnc/check.ts:119-134 | with the database down a listed phone is still reported |
| Dnc.ReportedSources | api/src/dnc/check.ts:54-67 | reported sources are sources that match, all of them when the limit leaves no row out |
| DncExact.AnswerLimit | api/src/dnc/check.ts:45-59 | a database answer has every row that matches, up to four of them |
| Dnc.SortedByPriority | api/src/dnc/types.ts:12-21 | the report is a permutation from the most to the least specific source |
| DncExact.RankedExact | api/src/dnc/types.ts:12-21 | the report in full: internal lists first, then litigators, states and the federal list, each as often as confirmed |
| DncExact.ListedExact | api/src/dnc/check.ts:39-66 | listed, in columns: phone, requested source, expiry, and for each source which tenant, campaign and state |
| DncExact.ConcernsExact | api/src/dnc/check.ts:39-66 | a tenant's filters have to contain exactly the rows that can be on the list for a request of its own |
| DncExact.FilterKeysExact | api/src/dnc/types.ts:45-59 | federal and litigator lists have one filter, internal and state lists one for each tenant, and no two sources share one |
| DncExact.MalformedIsListed | api/src/dnc/check.ts:89-99 | a malformed phone counts as listed and malformed, with no source |
| DncExact.AllDownIsClosed | api/src/dnc/check.ts:101-152 | with store and database down every requested source is reported |
| DncExact.FalsePositiveExact | api/src/dnc/check.ts:139-157 | when nothing fails a false positive of the filters is reported exactly when one answered yes and the phone is not listed |
| DncImport.DncStore.BulkImport | api/src/dnc/bulk-import.ts:58-123 | the chunk loop inserts the well-formed lines of the first 5000 and feeds one filter; added + rejected is the number of lines |
| DncExact.EntriesExact | api/src/dnc/bulk-import.ts:78-101 | what is stored, in columns: each well-formed line once, shared unless internal, with the line's own campaign and state before the import's |
| DncExact.TakenExact | api/src/dnc/bulk-import.ts:71-76 | the first 5000 lines are looked at |
| DncExact.InsertExact | api/src/dnc/bulk-import.ts:98-110 | an entry is added unless the same row, whatever its expiry, is there |
| DncImport.ImportKeepsContainment | api/src/dnc/bulk-import.ts:71-123 | containment survives for every tenant after internal and litigator imports and for the importing tenant after a state import; for another tenant exactly when its filter already answered yes to every imported phone |
| DncImport.StateImportMissed | api/src/dnc/bulk-import.ts:112-121 | a phone of another tenant's state import is listed for a tenant whose filter does not answer for it, and its check says that it is not |
| DncImport.StateImportBreaksContainment | api/src/dnc/bulk-import.ts:112-121 | an input on the failing side: one phone imported by tenant 1, seen by tenant 2 |
| DncImport.EntryListsExact | api/src/dnc/bulk-import.ts:98-110 | an entry lists its phone exactly when no expired row with its key stood there: such a row is ignored, not renewed |
| DncImport.ExpiredNotRenewed | api/src/dnc/bulk-import.ts:98-110 | an input on the failing side: an expired row with the entry's key is left as it is, and the phone stays unlisted |

## Left out

- Routes, schemas, metrics, logging, queues, telephony commands and publish/subscribe: plumbing.
- SHA-256, Ed25519 and hex or base64 decoding: parameters, as said above.
- IEEE rounding and the decimal formatting of levels, integrals and percentages: exact reals instead; times before 1970 and the epoch itself, which stored times treat as unset, are not set apart.
- Adapt.ResolveTarget: not at the one instant at which a tapered shift both starts and ends, where the code divides zero by zero; whole runs of ticks leave out such a shift.
- AdaptLoop.BreachReachesFloor: no outside writer of `dial_level`; the tick lock and the decision stream are not modelled, a tick that does not get the lock being no tick.
- FastCutter debouncing: only the cut's effect and the pruning of flips are modelled, since an extended debounce can shorten the window.
- DropGateRuns.EngagementEnds: runs without recoveries, which read the engagement time back from a key kept to the second.
- Alerts and the background transition-log insert of the drop gate: they change no state that the gate reads.
- DropGateRuns.DwellHolds: for engagements with a recorded time; a recovery that finds no key leaves none, and the gate may then be released at once.
- AuditRow.CanonicalInjective: for a previous hash without separators, as hex has none, and for the rows of `audit_log`; the other tables' strings are built the same way from other fields, and the Go verifier does not read them.
- AuditParity.RowParityExact: for rows of `audit_log` whose number literals are the same in both languages and whose JSON texts hold no surrogates; the MySQL trigger's third builder is not modelled.
- AuditVerifier.VerifyDay: how rows are scanned and their JSON parsed is not modelled; VerifyRow is one link of it.
- AuditCli.VerifyArchive: loading files or objects and parsing them; a file that does not parse ends the run like a malformed one. Findings printed before such an end are not modelled.
- JSON.stringify followed by replacing U+2028 and U+2029 is modelled as one escape per unit.
- resetListSync and the copy of a list without its deleted leads: their cursors can jump past unprocessed rows, so exact coverage is not true of them; the copy with deleted leads would repeat the reset's proof.
- Progress percentages of list operations and the capped count that feeds them.
- Csv.RoundTripExact: a row is a map from headers to texts; a header that names an inherited property of every object is not set apart.
- Campaign ids that do not parse as numbers share one rendezvous score; the score is a function of the id text here, which covers that.
- Go's do-not-call check reports suspect sources unsorted when the database fails, and differs from the TypeScript one in phone validation only; the model follows the TypeScript one, with the Go deduplication loop.
- Splitting import lines into columns, and stored states longer than two characters.
- Access control, time zones, callbacks, reports, templates and tokens: thin wrappers and finite tables.
