# symforge: verified models of its stateful and parsing core

This project models the parts of symforge whose correctness rests on more than one function: a crash-tolerant
idempotency store shared by many processes, a digest-linked approval chain with separate writer and verifier, calendar
arithmetic, a per-root worktree cache, a digest resynchronisation process, several parsers and rewriters, and two small
command-driven state machines. Everything is stated for all inputs, all runs and all reachable states.

`dafny verify dfyconfig.toml` checks the whole project.

## The components

**Idempotency replay store** (`PostImage`, `ReplayRecord`, `ReplayProtocol`, `ReplaySafety`, `ReplayTheorems`,
`ReplayVerification`, `ReplayAnswers`, `ReplayRequests`, `CanonicalJson`, `RequestFrame`, `Utf8`, `StringOrder`). The
store is a protocol between processes, so each file-system action of a call (staging, `create_new` of the claim marker,
the re-check, the rename, dropping the marker, each read and quarantine) is one step of a state machine. `Step` is total
over events: any call acts, any call crashes, someone rewrites the working tree, someone corrupts a published record.
`Run` folds any sequence of events, and one inductive invariant (`ReplaySafety.Inv`) carries all theorems. Request
identity underneath is canonical JSON in a hash frame.

**Approval chain** (`ApprovalChain`, `ApprovalStore`, `ClauseRanges`, `Resync`, `ResyncRounds`). The writer rewrites the
store directory in place; the verifier walks the history back. Every store the writer can reach holds the archived chain
of its current record, and the verifier is shown to accept it exactly when the chain is short enough and its signatures
verify under the signers of that moment. The clause sweep and the digest resynchronisation belong to the same manifest.

**Calendar** (`Calendar`). Day numbers to dates with truncating division and unsigned intermediate values, against a day
count defined by leap years and month lengths (section 5.7 and Appendix C of RFC 3339).

**Worktree cache** (`WorktreeCache`), **cfg predicates** (`CfgPredicate`), **gitignore rule** (`GitignoreRule`),
**trial windows** (`TrialWindows`), **scope claims** (`ScopeClaims`), **task queue** (`FrontMatter`, `TaskQueue`).

## Where the code does not do what one would expect

Each of these has an input on which the property fails and a lemma that says exactly when it holds.

- A verified replay reads its targets one by one. `ReplayVerification.TargetsNeedNotHoldTogether` is a run, from the
  empty store, in which the stored answer is given although from the second call's beginning on the targets held at no
  moment together; `ReplayVerification.SceneExists` gives it two files. The whole receipt holds on a disk if and only if
  every target reads there as it did at its own reading (`ReplayVerification.HoldTogetherExactly`), and it does at the
  end of every run in which nobody writes a target after the first read began
  (`ReplayVerification.QuietRunHoldsTogether`).
- `format_git_timestamp` truncates the day but takes a Euclidean time of day. Date and time rebuild the local seconds if
  and only if these are non-negative or a multiple of 86400; otherwise the date is one day late
  (`Calendar.TimestampRebuilds`, `Calendar.SecondBeforeEpoch`).
- A cfg key named `all`, `any` or `not` does not survive rendering and parsing; every other tree does
  (`CfgPredicate.RoundTripExact`, `CfgPredicate.ReservedKeyIsLost`).
- The resynchronisation replaces three digests without counting them. The rounds settle after at most four rewrites,
  each dirtying later stages only, if and only if nothing will be refused and none of the three, where it is stale,
  occurs before its own field in the text it will be searched in; both can be told from the documents before the first
  round (`ResyncRounds.FourRewritesExactly`, `ResyncRounds.NeverRefusedExactly`). Otherwise the rounds can go on for
  ever (`ResyncRounds.TangledNeverSettle`, with documents of any number of clauses in `ResyncRounds.TangledExists`). A
  manifest that pins its own attestation has no settled state (`ResyncRounds.SelfPinNeverSettles`).
- Appending the gitignore rule to a CRLF file that ends in a lone CR changes how the last line reads, and in that case
  alone (`GitignoreRule.EarlierLinesKeptExactly`, `GitignoreRule.SwallowedCr`). If that makes the line malformed, as it
  can (`GitignoreRule.CrCanMakeMalformed`, `GitignoreRule.MalformedByCrExactly`), a second reconciliation cannot
  verify the file (`GitignoreRule.SecondReconcileWritesNothing`).
- The documentation of `WorktreeCache` asks that the cache never be more permissive than the observation it stands in
  for. A hit is in the root's own last listing, but it is not checked against a fresh one
  (`WorktreeCache.StaleHitExactly`, `WorktreeCache.StaleHit`).
- Claims under an id that is empty or begins with a dot are not listed, so two instances can come to share a path if and
  only if one has such an id (`ScopeClaims.SharingExactly`). Ids from `generate-id` never do.
- A task without fields is not read back after it is written; with at least one field it always is
  (`FrontMatter.RoundTripExact`, `FrontMatter.EmptyDoesNotReadBack`). The commands always write two fields.

## Model

| member | source | states |
|---|---|---|
| ReplayTheorems.AtMostOneFirstExecution | src/idempotency.rs:568-656 | over every run of any number of calls, with crashes, disk writes and tampering anywhere, two calls of one key that both return FirstExecution are the same call |
| ReplayTheorems.StaysSealedForever | src/idempotency.rs:583-626 | a key with a directory, or with a claim marker no live call owns, stays so over every continuation and gains no publisher |
| ReplayTheorems.SealedKeyNeverExecutesAgain | src/idempotency.rs:583-626 | on such a key no call that has not published already ever becomes a first execution |
| ReplayTheorems.CrashedClaimFailsClosed | src/idempotency.rs:599-625 | after a crash between taking the claim and the rename, no call of that key is ever a first execution |
| ReplayTheorems.CrashSealsClaim | src/idempotency.rs:599-625 | the crash of a claim holder leaves the key sealed with nobody left to publish it |
| ReplayTheorems.ExistingRecordNeverExecutesAgain | src/idempotency.rs:1025-1054 | once a key directory exists, only the call that published it can be its first execution, even when the record is quarantined later |
| ReplayTheorems.PublisherExists | src/idempotency.rs:599-626 | every key directory was published by a call of that key |
| ReplayTheorems.PublishedRecordIsComplete | src/idempotency.rs:583-626 | at every moment an untampered key directory has a loadable, well-formed record with the request hash of the call that published it |
| ReplayTheorems.ReadersSeeWholeRecords | src/idempotency.rs:800-852 | a reader of an untampered key never finds a missing or corrupt record, is refused for conflict only if the published request differs, and replays only a record of its own request |
| ReplayTheorems.RecordLifeCycle | src/idempotency.rs:687-740 | over any stretch of a run an untampered record moves only forward, keeps its hashes and creation time, never changes once terminal, and has a receipt only when completed with a response and a target |
| ReplayVerification.VerifiedReplayIsFaithful | src/idempotency.rs:1025-1103 | a verified call gets the stored response only from a completed record whose receipt is bound to the root and physical key of its own source, with 1 to 4096 targets; at one event of this call, before its first read, every linked root stood as recorded; this call itself read every receipt target, in order, and at the moment of each read the target had its recorded bytes or absence and the deepest admitted root above it was still the directory admitted |
| ReplayVerification.HeaderWasChecked | src/idempotency.rs:307-327 | every verification that has begun, or ended in a stored answer, began with a check at one event of this call at which every linked root stood under its recorded id and as its recorded directory |
| ReplayVerification.ReadsHappened | src/idempotency.rs:329-353 | each disk a verification relied on was the disk when this very call read that target, target after target, later than any moment at which it had read none |
| ReplayVerification.HoldTogetherExactly | src/idempotency.rs:329-353 | after a stored answer the whole receipt holds on a disk exactly when every target reads there as it did at its own reading |
| ReplayVerification.QuietRunHoldsTogether | src/idempotency.rs:329-353 | if from some moment before the first read on nobody changes what a read of a target finds, the whole receipt holds on the disk at the end |
| ReplayVerification.ReplayMeansWhatWasLeft | src/idempotency.rs:442-456 | over every run, a stored answer on an untampered key comes from a receipt with which the call that published this very key completed its operation in this run, and if that was captured from what its operation left, every written path read as it did then |
| ReplayVerification.TargetsNeedNotHoldTogether | src/idempotency.rs:329-353 | a run from the empty store, reserve, complete, lose one target, ask again, swap the targets between the reads: the stored answer is given although from the second call's beginning on the receipt held at no moment |
| ReplayVerification.SceneExists | src/idempotency.rs:270-286 | two files beneath one root and the receipt bound to them, as that run needs |
| ReplayTheorems.UndisturbedCallExecutesFirst | src/idempotency.rs:568-626 | a call on a fresh key that nothing disturbs returns FirstExecution with a reserved record, drops its marker and changes nothing else |
| ReplayTheorems.UndisturbedRepeatReplays | src/idempotency.rs:577-581 | an undisturbed call on an intact key replays its record, or is refused for conflict exactly when the request differs |
| ReplayTheorems.UndisturbedProbeReplays | src/idempotency.rs:658-676 | an undisturbed probe of an intact key gets its record, or a conflict exactly when the request differs, and changes nothing |
| ReplayTheorems.UndisturbedProbeFindsNone | src/idempotency.rs:658-676 | a probe of a key without a directory says it is being published exactly while there is a claim marker, else that there is no record |
| ReplayTheorems.UndisturbedCallFailsClosed | src/idempotency.rs:815-889 | a directory without a record file is an incomplete reservation; a record that is not JSON, of another schema or of another key is moved to quarantine and the directory stays |
| ReplayTheorems.UndisturbedCallWaits | src/idempotency.rs:606-656 | a call that meets a claim marker without a directory waits, and gives up with Publishing |
| ReplayTheorems.WaiterReplays | src/idempotency.rs:628-656 | a waiting call gets the record once it is published, or a conflict |
| ReplayTheorems.ClaimantReplays | src/idempotency.rs:613-625 | a call that finds a directory under its own claim takes the record from there and removes its marker |
| ReplayTheorems.RenameKeepsRecords | src/idempotency.rs:616-620 | a rename never replaces a record, whatever state it is tried in |
| ReplayTheorems.FailureWritesNothing | src/idempotency.rs:568-626 | a failed file-system action changes no shared file, and the call reports it or goes on executing |
| ReplayAnswers.OperationStores | src/idempotency.rs:415-466 | in every run, the next operation of a call that executes on an untampered key stores exactly its own status, response, receipt and time, or nothing exactly when it is not accepted or the status does not allow it |
| ReplayAnswers.EveryWriteWasAsked | src/idempotency.rs:678-745 | over every run, an untampered record is created reserved by its publisher and changed only into what an operation leaves that this call was asked for while it executed |
| ReplayAnswers.PlainReplyExactly | src/idempotency.rs:1133-1156 | in every run, a plain call is told exactly what the status and the response of its record stand for, and on an untampered key the record is of its own request |
| ReplayAnswers.UndisturbedPlainReply | src/idempotency.rs:947-1000 | a repeated plain request, left alone, gets that reply in three steps and changes nothing |
| ReplayAnswers.UndisturbedVerifiedReply | src/idempotency.rs:1025-1103 | a repeated verified request, left alone, gets the reply of its record exactly when that is completed, its receipt is bound to the caller's source, the linked roots stand and every target holds beneath its deepest root; else that the replay is unavailable |
| ReplayAnswers.ForeignSourceNeverReplays | src/idempotency.rs:307-315 | once an untampered key has a record with a receipt, a call with another root or another physical directory never gets the stored response, over every continuation |
| ReplayRequests.ReplayAnswersTheSameRequest | src/idempotency.rs:77-93 | over every run, a call replays a record only if tool and request equal those it was published for up to member order, and meets a conflict only if they differ |
| ReplaySafety.ActEffect | src/idempotency.rs:568-676 | every step of a call changes the store only as its phase allows and leaves every other key alone |
| ReplaySafety.EffectKeepsOtherCall | src/idempotency.rs:583-626 | a step of one call keeps what every other call relies on |
| ReplaySafety.StepKeepsInv | src/idempotency.rs:568-889 | every event keeps the invariant: one claim owner per key, no claimant beside a publisher, intact records unless tampered with |
| ReplaySafety.RunKeepsInv | src/idempotency.rs:568-889 | every run keeps it |
| ReplayRecord.UpdateFollowsLifeCycle | src/idempotency.rs:390-466 | every write an `ActiveReplay` operation makes is a valid transition, keeps the identity and well-formedness, and adds a receipt only with the completion that brings one |
| ReplayRecord.UpdateWritesExactly | src/idempotency.rs:415-466 | started, uncertain, complete, complete with a receipt and fail each write their own status, response and receipt, exactly from the statuses that allow it |
| ReplayRecord.ReplySays | src/idempotency.rs:1133-1156 | the reply for each status and response |
| PostImage.DeepestOwnerIsUnique | src/idempotency.rs:329-350 | the anchor chosen for a target has an admitted root above it, longer than every other such root |
| PostImage.HeaderVerifiesExactly | src/idempotency.rs:307-327 | the checks before the first read pass exactly for the source the receipt is bound to, with 1 to 4096 targets, while every linked root stands under its recorded id and key |
| PostImage.BindsExactly | src/idempotency.rs:270-286 | a receipt is bound exactly when the source has a physical key, the linked roots stand and every target holds beneath its deepest root, and then names the source and every linked root |
| PostImage.TargetVerifiesExactly | src/idempotency.rs:292-353 | a target verifies exactly when the directory at the deepest admitted root above it is still the one admitted and the disk holds what was recorded |
| PostImage.CapturePostImage | src/idempotency.rs:226-244 | there is a receipt exactly when every written path can be read, and each of its targets holds on a disk exactly when its path reads there as it did at capture |
| PostImage.CapturedVerifiesExactly | src/idempotency.rs:359-373 | a captured receipt verifies on a later disk exactly when every path reads as it did at capture |
| PostImage.BoundReceiptVerifiesWhileTargetsHold | src/idempotency.rs:270-354 | a receipt bound to its sources verifies on any later disk with the same physical roots exactly while every target holds what was recorded |
| CanonicalJson.CanonicalizeIdempotent | src/idempotency.rs:1194-1210 | canonicalising twice is canonicalising once |
| StringOrder.LessExactly | src/idempotency.rs:1194-1210 | the key order is the lexicographic one: the first difference decides, and a prefix comes first |
| CanonicalJson.CanonicalizeKeepsValue | src/idempotency.rs:1194-1210 | canonicalising changes nothing but the order of object members, at any depth |
| CanonicalJson.SameHasOneCanonicalForm | src/idempotency.rs:1194-1210 | values that differ only in member order have one canonical form |
| CanonicalJson.CanonicalFormDetermines | src/idempotency.rs:1194-1210 | values with one canonical form differ only in member order |
| CanonicalJson.SerializePrefix | src/idempotency.rs:1190-1193 | serialised JSON is uniquely readable: equal texts with any separators behind them come from equal values |
| CanonicalJson.CanonicalTextExact | src/idempotency.rs:1190-1210 | canonical bytes are equal exactly when the values differ only in member order |
| RequestFrame.NoRawNul | src/idempotency.rs:78-93 | serialised JSON contains no raw NUL |
| RequestFrame.RequestHashExact | src/idempotency.rs:78-93 | two request hashes are equal exactly when the tools are equal and the requests differ only in member order |
| RequestFrame.KeyHashInjective | src/idempotency.rs:50-64 | two key hashes are equal exactly when the keys are |
| RequestFrame.KeyHashIsNoRequestHash | src/idempotency.rs:13-14 | no key hash is a request hash |
| ApprovalChain.VerifyApprovalHistory | execution/refreeze_v11.py:3337-3412 | the loop over `cursor` and `seen` terminates and gives the first error of the recursive walk |
| ApprovalChain.RecordSoundExactly | execution/refreeze_v11.py:3258-3299 | the validator accepts exactly the records with these constants, this identity, well-formed ids, times and digests, and a predecessor exactly beyond sequence 1 |
| ApprovalChain.RecordErrorBlames | execution/refreeze_v11.py:3258-3299 | each error names the field that is wrong |
| ApprovalChain.ApprovedExactly | execution/refreeze_v11.py:3415-3497 | for all bytes, signatures, histories and targets, approval exactly for the canonical text of a sound record of this commit, tree, attestation path and digest, whose signature verifies and which is first or has its complete chain of at most 128 |
| ApprovalChain.ApprovalErrorBlames | execution/refreeze_v11.py:3462-3487 | a mismatch of commit, tree, path, digest or signature is reported only where there is one |
| ApprovalChain.WalkBuildsChain | execution/refreeze_v11.py:3349-3412 | an accepted walk yields a complete chain of linked, canonical, valid, signed records |
| ApprovalChain.ChainSequences | execution/refreeze_v11.py:3349-3412 | a complete chain counts down by one to 1 with one continuity tuple |
| ApprovalChain.ChainIsAccepted | execution/refreeze_v11.py:3349-3412 | a complete chain is accepted; the cycle check never fires |
| ApprovalChain.HistoryAcceptsExactlyCompleteChains | execution/refreeze_v11.py:3337-3412 | a canonical record is accepted exactly when its sequence is 1, or is at most 128 and the history holds its complete chain |
| ApprovalChain.FiledAlike | execution/refreeze_v11.py:3349-3412 | a record has at most one archived chain |
| ApprovalChain.FiledAcceptedExactly | execution/refreeze_v11.py:3337-3412 | a record whose chain is archived is accepted exactly when its sequence is at most 128 and every archived signature of the chain verifies |
| ApprovalStore.Store.constructor | scripts/prepare-refreeze-approval.py:154-157 | a new store is empty |
| ApprovalStore.Store.WriteRecord | scripts/prepare-refreeze-approval.py:69-98 | the new record replaces the old and any signature of it is gone |
| ApprovalStore.Store.Prepare | scripts/prepare-refreeze-approval.py:114-227 | a run refuses and leaves every file, replaces an unsigned draft in its place, or archives a verified record and chains from it |
| ApprovalStore.Store.Sign | scripts/sign-refreeze-approval.ps1:75-90 | signing sets the signature of an existing record and nothing else |
| ApprovalStore.DraftReplacementKeepsInv | scripts/prepare-refreeze-approval.py:166-185 | a replaced draft keeps its sequence and predecessor, and the chain below serves the new record |
| ApprovalStore.SuccessorKeepsInv | scripts/prepare-refreeze-approval.py:186-227 | chaining from a verified record gives an archived chain one longer |
| ApprovalStore.RunKeepsInv | scripts/prepare-refreeze-approval.py:159-227 | after any prepare and sign steps the store holds a valid record over its archived chain, whatever signers were allowed when |
| ApprovalStore.ArchivedWereVerified | scripts/prepare-refreeze-approval.py:186-227 | nothing is archived whose signature did not verify under the signers allowed when it was archived |
| ApprovalStore.ReachableStoresVerify | execution/refreeze_v11.py:3415-3490 | in every reachable store, with other signers allowed at every run, the history walk accepts the current record exactly when its sequence is at most 128 and every archived signature of its chain verifies under the signers of the walk; for every target, approval further needs exactly its own signature to verify and the record to be of that target |
| ApprovalStore.SameSignersVerify | execution/refreeze_v11.py:3415-3490 | if the signers of the walk were allowed at every run, it accepts exactly when the sequence is at most 128 |
| ApprovalStore.PrepareAdvances | scripts/prepare-refreeze-approval.py:159-227 | a permitted run on a verified record succeeds with the next sequence; on a draft it succeeds with the same one |
| ApprovalStore.PrepareExactly | scripts/prepare-refreeze-approval.py:114-227 | in every reachable store a run succeeds exactly when the tree is clean, verified and attested and a signed record verifies and is of another commit; it then leaves one unsigned record of this commit, tree and attestation in its place of the chain; each refusal names what was missing first |
| ApprovalStore.PreparedIsApprovedFor | scripts/prepare-refreeze-approval.py:69-98 | after a successful run at HEAD and any signature, a target is approved exactly when it is that commit, tree and attestation, the signature verifies, and the history is short enough and verifies |
| ClauseRanges.SortedFacts | execution/refreeze_v11.py:3007-3012 | sorting keeps whether ranges are proper and whether any two share a line, and orders them |
| ClauseRanges.SweepGroup | execution/refreeze_v11.py:3007-3012 | the sweep with a running maximum end reports an overlap exactly when two ranges share a line |
| ClauseRanges.GroupClauses | execution/refreeze_v11.py:2742-2755 | each place gets exactly its own ranges, in order |
| ClauseRanges.SweepClauses | execution/refreeze_v11.py:3007-3012 | an overlap is raised exactly when two clauses of one source and path share a line |
| Resync.Worktree.ResyncWrite | scripts/resync-refreeze-digests.py:66-191 | a `--write` run refuses, settles or rewrites exactly as one round prescribes, and refuses exactly for the reasons of `Resync.RefusesExactly` |
| Resync.CorrectedIsFixed | scripts/resync-refreeze-digests.py:99-110 | counted replacements of stale digests, one after another, change exactly the stale pins |
| Resync.RefusesExactly | scripts/resync-refreeze-digests.py:66-191 | a run refuses exactly when a pin cannot be read, a stale digest occurs elsewhere once the pins before it are corrected, the agreeing pins have no amendment digest, or all else agrees and there is no manifest pin |
| ResyncRounds.RewriteExactly | scripts/resync-refreeze-digests.py:66-191 | for every stage, a rewriting run puts its own stage right and changes nothing else exactly when the digest it replaces without counting first occurs in its own field |
| ResyncRounds.RewriteDescendsExactly | scripts/resync-refreeze-digests.py:66-191 | for every stage, a rewriting run settles its stage and disturbs none before it, exactly under that condition |
| ResyncRounds.GoalKept | scripts/resync-refreeze-digests.py:66-191 | putting one stage right keeps the documents aimed at, and whether the later stages will find their own fields |
| ResyncRounds.FourRewritesExactly | scripts/resync-refreeze-digests.py:66-191 | the rounds settle after at most four rewrites, each dirtying later stages only, exactly when the first documents are ready and clear; no run then refuses, and they end in the documents with every stage put right and all digests in agreement |
| ResyncRounds.NeverRefusedExactly | scripts/resync-refreeze-digests.py:66-191 | from clear documents no run ever refuses exactly when, before the first, the pins can be read, the stale ones told apart, the corrected amendments have a digest and there is a pin field |
| ResyncRounds.SettledExactly | scripts/resync-refreeze-digests.py:66-191 | a round writes nothing and does not refuse exactly when all digests agree |
| ResyncRounds.RoundsCanLoop | scripts/resync-refreeze-digests.py:126-143 | when the pins agree, the stale set digest first occurs as a pin and the new one nowhere, two rounds undo each other |
| ResyncRounds.TangledNeverSettle | scripts/resync-refreeze-digests.py:66-191 | such documents never settle and never refuse, however many rounds are made |
| ResyncRounds.TangledExists | scripts/resync-refreeze-digests.py:66-143 | there are such documents with any number of clauses |
| ResyncRounds.SelfPinNeverSettles | scripts/resync-refreeze-digests.py:66-191 | a manifest that pins its own attestation never settles, as long as no digest is contained in what it is the digest of |
| Calendar.YearOfEraFits | src/git.rs:625-638 | the corrected quotient is the year of the era whose days contain the given one |
| Calendar.DaysToYmdIsExact | src/git.rs:625-638 | for every day number, negative ones included, the date is real and has exactly that day number |
| Calendar.DaysToYmdSuccessor | src/git.rs:625-638 | day 0 is 1970-01-01 and day n + 1 is the calendar successor of day n |
| Calendar.YmdInvertsDayNumber | src/git.rs:625-638 | every real date is recovered from its day number |
| Calendar.TimestampRebuilds | src/git.rs:578-600 | date and time of day rebuild the local seconds exactly when these are non-negative or a multiple of 86400, and are one day late otherwise; the offset is printed exactly, with its sign |
| Calendar.SecondBeforeEpoch | src/git.rs:578-600 | one second before the epoch is shown as the first of January 1970, 23:59:59 |
| Calendar.DayStepsFitExactly | src/git.rs:625-638 | a 64-bit day number overflows exactly when it is one of the last 719468, at the first addition |
| Calendar.TimestampFitsExactly | src/git.rs:578-638 | for 64-bit seconds and a 32-bit offset only the sum of the two can overflow, and nothing behind it |
| WorktreeCache.Cache.constructor | src/worktree.rs:135-139 | a new cache is empty |
| WorktreeCache.Cache.RefreshRoot | src/worktree.rs:210-219 | a successful refresh replaces one root's slice by its listing; a failed one changes nothing |
| WorktreeCache.Cache.Lookup | src/worktree.rs:185-204 | a hit comes from the slice of the canonical root, or of the root as given when it has no canonical form, else one refresh of that slice decides |
| WorktreeCache.SliceIsLastListing | src/worktree.rs:144-219 | over every run of requests for any roots, each slice is the last successful listing of its own root |
| WorktreeCache.HitIsListed | src/worktree.rs:185-204 | over every run, a directory is recognised only if the root's own last listing names it |
| WorktreeCache.MissIsFresh | src/worktree.rs:191-204 | a directory is unknown only if a listing made for this call lacks it |
| WorktreeCache.FreshIsFound | src/worktree.rs:185-204 | a directory the fresh listing names is always recognised, whatever the cache held |
| WorktreeCache.OtherSlicesKept | src/worktree.rs:210-219 | a request for one root leaves all other slices alone |
| WorktreeCache.StaleHitExactly | src/worktree.rs:185-204 | a directory the fresh listing lacks is still recognised exactly when the root's last listing named it |
| WorktreeCache.StaleHit | src/worktree.rs:185-204 | a worktree listed once, removed since and still found |
| WorktreeCache.ResolveTargetPath | src/worktree.rs:239-322 | an edit is rerouted exactly when the directory is another one, recognised for this root, and has the file; rerouted exactly when target and indexed path differ, at the same relative path; an unrecognised directory does not exist or is not in a fresh listing; the indexed path is the canonical one where there is one |
| WorktreeCache.RerouteIsListed | src/worktree.rs:239-322 | over every run, an edit is rerouted only into a directory of its root's own last listing |
| CfgPredicate.CfgExpr.Eat | execution/aap_migration_receipt_v11.py:103-108 | a token is consumed exactly when there is one and it is the expected one |
| CfgPredicate.CfgExpr.Expr | execution/aap_migration_receipt_v11.py:116-133 | the parser terminates on every token list and agrees with the recursive grammar on the result and on what is left |
| CfgPredicate.CfgExpr.ParseAll | execution/aap_migration_receipt_v11.py:110-114 | parsing succeeds only when no token is left |
| CfgPredicate.ParsesExactly | execution/aap_migration_receipt_v11.py:110-133 | the parser accepts exactly the token lists of the grammar, with the commas it does not miss, and gives the tree they spell |
| CfgPredicate.ParseRendered | execution/aap_migration_receipt_v11.py:116-133 | the tokens of a tree, with anything behind them, parse to that tree and leave the rest, exactly when no key is reserved |
| CfgPredicate.TokenizeRendered | execution/aap_migration_receipt_v11.py:96-98 | the tokenizer splits a rendered tree into its tokens |
| CfgPredicate.RoundTripExact | execution/aap_migration_receipt_v11.py:92-133 | tokenizing and parsing the text of a tree gives it back exactly when no key is `all`, `any` or `not` |
| CfgPredicate.ReservedKeyIsLost | execution/aap_migration_receipt_v11.py:116-133 | an atom whose key is `all` is not read back |
| CfgPredicate.EvalIsHolds | execution/aap_migration_receipt_v11.py:136-153 | evaluation is the all/any/not semantics and raises nothing on trees whose `not` has one argument |
| CfgPredicate.EvalAfterRoundTrip | execution/aap_migration_receipt_v11.py:92-153 | evaluating what was parsed from a tree's text is evaluating the tree |
| CfgPredicate.NotFreeIsMonotone | execution/aap_migration_receipt_v11.py:136-153 | without `not`, more facts never switch a predicate off |
| GitignoreRule.FirstNewline | src/gitignore_hygiene.rs:214-225 | CRLF exactly when the first line ends in it |
| GitignoreRule.AppendCanonicalRule | src/gitignore_hygiene.rs:193-212 | the original, byte for byte with its mark, and the rule on a line of its own behind it |
| GitignoreRule.UpdatedLines | src/gitignore_hygiene.rs:173-212 | read back, the file is the earlier lines, then the rule, then nothing but an empty line |
| GitignoreRule.EarlierLinesKeptExactly | src/gitignore_hygiene.rs:193-212 | earlier lines read as before, a last unfinished one exactly when no CR is swallowed |
| GitignoreRule.SwallowedCr | src/gitignore_hygiene.rs:193-212 | a CRLF file ending in CR whose last line reads differently afterwards |
| GitignoreRule.AppendedRuleIsEffective | src/gitignore_hygiene.rs:173-212 | appended to a readable file the rule decides, unless the swallowed CR makes the last line malformed |
| GitignoreRule.LastSpeakerDecides | src/gitignore_hygiene.rs:173-191 | the last line that speaks decides, and without one nothing is ignored |
| GitignoreRule.EffectiveExactly | src/gitignore_hygiene.rs:173-191 | the rule is in effect exactly for UTF-8 text without a malformed line whose last speaking line ignores |
| GitignoreRule.MalformedByCrExactly | src/gitignore_hygiene.rs:173-193 | a matcher that trims blanks but not an escaped space finds a line malformed only with a CR behind it exactly when the line ends in an escaped space and dangles without it |
| GitignoreRule.CrCanMakeMalformed | src/gitignore_hygiene.rs:173-212 | a readable file, with an escaped space before its lone CR, that cannot be read once the rule is appended |
| GitignoreRule.Repository.Reconcile | src/gitignore_hygiene.rs:81-171 | the report and the file left behind, for every entry, authority, interference and outcome of the write |
| GitignoreRule.ReportExactly | src/gitignore_hygiene.rs:81-171 | when each status is reported, and that the rule is appended exactly under append authority to an unchanged file judged to lack it |
| GitignoreRule.OnlyAppends | src/gitignore_hygiene.rs:122-171 | a file is written only under append authority, only while it still holds the bytes judged, and only behind them |
| GitignoreRule.SecondReconcileWritesNothing | src/gitignore_hygiene.rs:81-171 | after a report of `Effective` a second reconciliation writes nothing, and reports `Effective` again except in the corner of the lone CR |
| TrialWindows.SoundExactly | research/full-surface-benchmark/adjudicate_results.py:738-787 | a window raises no issue at its start or its end exactly when its case and ordinal are valid and its last row is a terminal of its own case |
| TrialWindows.SplitTrialWindows | research/full-surface-benchmark/adjudicate_results.py:713-801 | windows and issues are exactly those of the slices from each start |
| TrialWindows.SpansAreWellCut | research/full-surface-benchmark/adjudicate_results.py:724-787 | the slices are disjoint and in order, begin with their only start, hold a terminal only as last row, and end only at a terminal, a start or the end |
| TrialWindows.EveryStartOpens | research/full-surface-benchmark/adjudicate_results.py:724-768 | every `case_start` opens a window |
| TrialWindows.NoIssueExactly | research/full-surface-benchmark/adjudicate_results.py:713-801 | no issue is raised exactly when every window has a valid case, a positive ordinal and a terminal of its own case |
| TrialWindows.MadeUpOrdinals | research/full-surface-benchmark/adjudicate_results.py:749-765 | a made-up ordinal is negative and no two windows share one |
| TrialWindows.WindowNamed | research/full-surface-benchmark/adjudicate_results.py:724-787 | a window has the case and the ordinal of its first row, or made-up ones where that row has none |
| TrialWindows.FaultyExactly | research/full-surface-benchmark/adjudicate_results.py:713-801 | for each window exactly the issues are raised that say what is wrong with it |
| ScopeClaims.ScopesOverlap | scripts/coordination.js:75-87 | true exactly when a writable entry of one scope is a prefix of one of the other |
| ScopeClaims.OverlapExactly | scripts/coordination.js:75-87 | two scopes overlap exactly when some path is covered by both |
| ScopeClaims.Coordination.TryClaim | scripts/coordination.js:131-153 | refused exactly when a listed claim of another instance overlaps, which is named; else the instance's only claim |
| ScopeClaims.Coordination.ReleaseClaim | scripts/coordination.js:155-163 | the claim is gone and no other |
| ScopeClaims.Coordination.UnregisterInstance | scripts/coordination.js:111-118 | the instance and its claim are gone and no other |
| ScopeClaims.Coordination.SweepGone | scripts/coordination.js:176-196 | exactly the listed instances that are stale or dead are gone, with their claims |
| ScopeClaims.StepDoes | scripts/coordination.js:97-196 | what each command does to every entry, and that it touches no other |
| ScopeClaims.StepKeepsDisjoint | scripts/coordination.js:111-196 | every command keeps the writable scopes of listed instances apart |
| ScopeClaims.RunKeepsDisjoint | scripts/coordination.js:111-196 | so does every run |
| ScopeClaims.NoPathHasTwoWriters | scripts/coordination.js:131-196 | after every run no path is covered by writable scopes of two listed instances |
| ScopeClaims.AcceptedExactly | scripts/coordination.js:131-145 | a claim is accepted exactly when it shares no path with another listed instance |
| ScopeClaims.HiddenClaimIsMissed | scripts/coordination.js:58-64 | a claim under an id that is empty or begins with a dot does not keep others out |
| ScopeClaims.SharingExactly | scripts/coordination.js:131-196 | two instances can come to share a path exactly when the id of one is empty or begins with a dot |
| FrontMatter.ParseFrontMatter | execution/task_queue.py:39-53 | the loop over lines gives the fields, the body or the first error |
| FrontMatter.ParsedIsWellFormed | execution/task_queue.py:39-53 | parsed keys and values are stripped and hold no line break, keys no colon |
| FrontMatter.ParsesExactly | execution/task_queue.py:39-53 | a text parses exactly when it has both fences and only blank lines or lines with a colon between them; the body follows the first closing fence, and each key has the value of its last line |
| FrontMatter.SerializeTask | execution/task_queue.py:56-79 | known keys in their order, then all others ascending, between the fences, then the body |
| FrontMatter.SerializationUnique | execution/task_queue.py:56-79 | the text depends on nothing but fields and body |
| FrontMatter.EmptyDoesNotReadBack | execution/task_queue.py:39-79 | a task without fields is never read back with its body, whatever that is |
| FrontMatter.RoundTripExact | execution/task_queue.py:39-79 | writing and parsing again gives the same fields and body exactly when there is a field |
| TaskQueue.LoadTasks | execution/task_queue.py:82-91 | every file once, in ascending order of number and then name; nothing when one does not parse |
| TaskQueue.EnsureSingle | execution/task_queue.py:102-107 | fails exactly when two tasks are in progress, else finds the one there is |
| TaskQueue.NextPending | execution/task_queue.py:117-127 | the named successor if pending, else the first pending task, else none is pending |
| TaskQueue.Queue.Save | execution/task_queue.py:94-95 | what is read back has this status and this date, and every other field and the body as before; no other file changes |
| TaskQueue.Queue.Resume | execution/task_queue.py:147-159 | keeps the only task in progress or promotes the next pending one; at most one is in progress afterwards; refuses only files that do not load or two in progress; of the promoted file only status and date change |
| TaskQueue.Queue.Complete | execution/task_queue.py:162-183 | the only task in progress is done, and with advance exactly its successor is in progress; in these two files only status and date change; every refusal has its reason |
| TaskQueue.Queue.SetStatus | execution/task_queue.py:186-199 | whatever the reference resolves to gets the status, `in_progress` only when no other has it, and of that file only status and date change; at most one in progress is kept; every refusal has its reason |
| TaskQueue.ResumedLeavesOne | execution/task_queue.py:147-159 | from what `resume` tested and did: none is in progress afterwards, or exactly the one it names |
| TaskQueue.CompletedLeavesOne | execution/task_queue.py:162-183 | from what `complete` tested and did: none is in progress afterwards, or exactly the successor |
| TaskQueue.SetKeepsOne | execution/task_queue.py:186-199 | from what `set-status` tested and did: at most one stays in progress, and after `in_progress` at most one in any case |
| TaskQueue.RunKeepsOne | execution/task_queue.py:147-199 | however many commands are given, at most one task is in progress |

## Left out

- The real file system, git, ssh-keygen, the clock and the process table are parameters: functions or values an
  environment chooses freely, at every step where the program asks again.
- SHA-256 is a constructor, so it is injective. The secret scanner's verdict comes with the response it was asked about.
- ReplayTheorems.AtMostOneFirstExecution: published directories and claim markers are not removed from outside, and
  random staging and quarantine names do not collide.
- ReplayVerification.VerifiedReplayIsFaithful: a directory replaced by another with the same root key is seen as the
  same; the header checks of all linked roots are one step. A revoked lease is a read that fails.
- The deadline of `wait_for_publication` is a give-up step that may come at any time; how long it waits is not modelled.
- Supersede markers (`try_claim_supersede`, `release_supersede`) are not part of the protocol here.
- The text of numbers in JSON is kept as written; how serde_json prints a number is not modelled.
- ApprovalStore.ReachableStoresVerify: JSON text of an approval record is a codec that reads back what it writes, one
  prepare run is one step, and git prints well-formed object ids. One walk of the verifier sees one set of signers.
- ResyncRounds.FourRewritesExactly: documents are sequences of digests between which the text does not change, and
  pinned files are others than the two documents, which `ResyncRounds.SelfPinNeverSettles` shows cannot be dropped. The
  amendment digest is a function of the clause digests; the shape checks behind it are not modelled.
- ClauseRanges.SweepClauses: clause text and its hash are not part of the ranges.
- CfgPredicate.TokenizeRendered: which characters are word characters is a parameter that excludes the five marks.
- Calendar.TimestampRebuilds: the stamp is its numbers; padding and the sign of the offset as text are not modelled.
- WorktreeCache.ResolveTargetPath: canonicalising a canonical path gives it back. The test-only `insert`, the routing
  policy variable and the porcelain text of the listing are not modelled.
- GitignoreRule.MalformedByCrExactly: the matcher knows trailing blanks, dangling backslashes and the rule; other
  patterns are silent in it.
- GitignoreRule.AppendedRuleIsEffective: how one pattern line is matched is a parameter that knows the rule and the
  empty line; which line is last to speak is modelled.
- ScopeClaims.RunKeepsDisjoint: commands are atomic; two unlocked claims at once can both be granted in the original.
  Ids are plain file names; one with a path separator can name another id's file.
- TaskQueue.LoadTasks: tasks with equal number and file name in different directories may come in either order. How a
  task is numbered and referred to is a parameter. Newline translation by the platform is not modelled.
- TrialWindows.SplitTrialWindows: an issue is its code and case; its prose, severity and artifact are not modelled.
- The rest of the manifest validation, of the adjudicator, the index, the server and the release scripts would add long
  lists of single checks.
