/** The operator's approval store: preparing and signing records, and what the verifier says about the result. */
module ApprovalStore {
  import opened Common
  import opened ApprovalChain

  const RELEASE_IDENTITY := "symforge-release@special-place-ai-heaven"
  const STORE_LOCATOR := "local-operator-approval-store"
  const STORE_VERSION := 1
  const ATTESTATION_PATH := "docs/reviews/FEATURE-020-REFREEZE-ATTESTATION-v11.md"

  /** What one run reads from git, the clock and the store: the state of HEAD, the time, and what ssh-keygen answers
      under the allowed signers of that moment, if there are any. */
  datatype Head = Head(
    clean: bool, verified: bool, commit: string, tree: string, attestation: Option<Digest>, now: string,
    allowedSigners: Option<(Bytes, Signature) -> bool>)

  datatype Refusal =
    | DirtyTree | InternalVerificationFailed | AttestationMissing | RecordUnreadable | RecordNotCanonical
    | NoAllowedSigners | PredecessorUnverified | NothingNew | HistoryDiffers

  /** The files of the store: the current record, its signature and the history. */
  datatype Files = Files(record: Option<Bytes>, signature: Option<Signature>, history: History)

  const EMPTY_STORE := Files(None, None, History(map[], map[]))

  /** The record `write_record` writes. */
  function NewRecord(head: Head, digest: Digest, sequence: int, predecessor: Option<DigestField>): Approval {
    Approval(RECORD_KIND, 1, CANONICAL_REPOSITORY, APPROVAL_PURPOSE, head.commit, head.tree, ATTESTATION_PATH,
             Hex64(digest),
             RELEASE_IDENTITY, head.now, sequence, STORE_LOCATOR, STORE_VERSION, predecessor, SIGNATURE_NAMESPACE)
  }

  function Written(env: Env, files: Files, head: Head, digest: Digest, sequence: int,
                   predecessor: Option<DigestField>): Files {
    files.(record := Some(env.encode(NewRecord(head, digest, sequence, predecessor))), signature := None)
  }

  function Archived(history: History, bytes: Bytes, signature: Signature): History {
    var digest := Sha256(bytes);
    if digest in history.records then history
    else History(history.records[digest := bytes], history.signatures[digest := signature])
  }

  /** One run of `prepare-refreeze-approval`. */
  function Prepared(env: Env, files: Files, head: Head): Result<Files, Refusal> {
    if !head.clean then Err(DirtyTree)
    else if !head.verified then Err(InternalVerificationFailed)
    else if head.attestation.None? then Err(AttestationMissing)
    else if files.record.None? then Ok(Written(env, files, head, head.attestation.value, 1, None))
    else if env.parse(files.record.value).None? then Err(RecordUnreadable)
    else
      var bytes := files.record.value;
      var previous := env.parse(bytes).value;
      if bytes != env.encode(previous) then Err(RecordNotCanonical)
      else if files.signature.None? then
        Ok(Written(env, files, head, head.attestation.value, previous.sequence, previous.predecessor))
      else if head.allowedSigners.None? then Err(NoAllowedSigners)
      else if !head.allowedSigners.value(bytes, files.signature.value) then Err(PredecessorUnverified)
      else if previous.targetCommit == head.commit then Err(NothingNew)
      else if Sha256(bytes) in files.history.records && files.history.records[Sha256(bytes)] != bytes then
        Err(HistoryDiffers)
      else
        var archived := files.(history := Archived(files.history, bytes, files.signature.value));
        Ok(Written(env, archived, head, head.attestation.value, previous.sequence + 1, Some(Hex64(Sha256(bytes)))))
  }

  /** The store directory, whose files the two programs rewrite in place. */
  class Store {
    var record: Option<Bytes>
    var signature: Option<Signature>
    var records: map<Digest, Bytes>
    var signatures: map<Digest, Signature>

    function Contents(): Files
      reads this
    {
      Files(record, signature, History(records, signatures))
    }

    constructor ()
      ensures Contents() == EMPTY_STORE
    {
      record, signature, records, signatures := None, None, map[], map[];
    }

    /** Write the record and remove a stale signature. */
    method WriteRecord(env: Env, head: Head, digest: Digest, sequence: int, predecessor: Option<DigestField>)
      modifies this
      ensures Contents() == Written(env, old(Contents()), head, digest, sequence, predecessor)
    {
      record := Some(env.encode(NewRecord(head, digest, sequence, predecessor)));
      signature := None;
    }

    /** A refused run leaves every file as it was. */
    method Prepare(env: Env, head: Head) returns (refusal: Option<Refusal>)
      modifies this
      ensures refusal.None? <==> Prepared(env, old(Contents()), head).Ok?
      ensures refusal.None? ==> Contents() == Prepared(env, old(Contents()), head).value
      ensures refusal.Some? ==> Contents() == old(Contents())
      ensures refusal.Some? ==> Prepared(env, old(Contents()), head) == Err(refusal.value)
    {
      if !head.clean { return Some(DirtyTree); }
      if !head.verified { return Some(InternalVerificationFailed); }
      if head.attestation.None? { return Some(AttestationMissing); }
      var predecessor: Option<DigestField> := None;
      var sequence := 1;
      if record.Some? {
        var bytes := record.value;
        if env.parse(bytes).None? { return Some(RecordUnreadable); }
        var previous := env.parse(bytes).value;
        if bytes != env.encode(previous) { return Some(RecordNotCanonical); }
        if signature.None? {
          predecessor := previous.predecessor;
          sequence := previous.sequence;
          record := None;
          WriteRecord(env, head, head.attestation.value, sequence, predecessor);
          return None;
        }
        if head.allowedSigners.None? { return Some(NoAllowedSigners); }
        if !head.allowedSigners.value(bytes, signature.value) { return Some(PredecessorUnverified); }
        var digest := Sha256(bytes);
        predecessor := Some(Hex64(digest));
        sequence := previous.sequence + 1;
        if previous.targetCommit == head.commit { return Some(NothingNew); }
        if digest !in records {
          records := records[digest := bytes];
          signatures := signatures[digest := signature.value];
        } else if records[digest] != bytes {
          return Some(HistoryDiffers);
        }
      }
      WriteRecord(env, head, head.attestation.value, sequence, predecessor);
      return None;
    }

    /** Signing writes whatever signature the chosen key produced; it need not verify. */
    method Sign(produced: Signature) returns (signed: bool)
      modifies this`signature
      ensures signed == old(record.Some?)
      ensures Contents() == if signed then old(Contents()).(signature := Some(produced)) else old(Contents())
    {
      signed := record.Some?;
      if signed {
        signature := Some(produced);
      }
    }
  }

  datatype Event = PrepareRun(head: Head) | SignRun(signature: Signature)

  function Step(env: Env, files: Files, event: Event): Files {
    match event
    case PrepareRun(head) => if Prepared(env, files, head).Ok? then Prepared(env, files, head).value else files
    case SignRun(signature) => if files.record.Some? then files.(signature := Some(signature)) else files
  }

  function Run(env: Env, files: Files, events: seq<Event>): Files
    decreases |events|
  {
    if events == [] then files else Step(env, Run(env, files, events[..|events| - 1]), events[|events| - 1])
  }

  /** Git prints object ids and the clock prints a zoned time. */
  predicate Plausible(env: Env, event: Event) {
    event.PrepareRun? ==>
      GitOid(event.head.commit) && GitOid(event.head.tree) && event.head.now != "" && env.zonedTime(event.head.now)
  }

  ghost predicate Usable(env: Env) {
    RoundTrips(env) && env.repoPath(ATTESTATION_PATH)
  }

  predicate Valid(env: Env, record: Approval) {
    RecordError(env, record, RELEASE_IDENTITY, CANONICAL_REPOSITORY).None?
  }

  predicate Chain(env: Env, history: History, chain: seq<Approval>, record: Approval) {
    FiledChain(env, history, chain, record, RELEASE_IDENTITY, CANONICAL_REPOSITORY)
  }

  /** Every archived record is under its own digest beside a signature. */
  predicate HistoryInv(history: History) {
    forall digest :: digest in history.records ==>
      Sha256(history.records[digest]) == digest && digest in history.signatures
  }

  /** The current record is canonical and valid, and the history below it is archived. */
  ghost predicate Inv(env: Env, files: Files) {
    && HistoryInv(files.history)
    && (files.record.None? ==> files.signature.None?)
    && (files.record.Some? ==>
      exists record, chain ::
        files.record.value == env.encode(record) && Valid(env, record) &&
        ContinuityOf(record) == StoreContinuity() && Chain(env, files.history, chain, record))
  }

  function StoreContinuity(): Continuity {
    Continuity(CANONICAL_REPOSITORY, APPROVAL_PURPOSE, SIGNATURE_NAMESPACE, RELEASE_IDENTITY, STORE_LOCATOR,
               STORE_VERSION)
  }

  lemma NewRecordIsValid(env: Env, head: Head, digest: Digest, sequence: int, predecessor: Option<DigestField>)
    requires Usable(env) && Plausible(env, PrepareRun(head))
    requires sequence >= 1 && (sequence == 1 <==> predecessor.None?) && (predecessor.Some? ==> predecessor.value.Hex64?)
    ensures Valid(env, NewRecord(head, digest, sequence, predecessor))
    ensures ContinuityOf(NewRecord(head, digest, sequence, predecessor)) == StoreContinuity()
  {
    assert IdentitySyntax(RELEASE_IDENTITY);
  }

  /** More archived records never break a chain. */
  lemma ChainSurvivesArchiving(env: Env, history: History, chain: seq<Approval>, record: Approval, bytes: Bytes,
                               signature: Signature)
    requires Chain(env, history, chain, record)
    ensures Chain(env, Archived(history, bytes, signature), chain, record)
  {
    forall i | 0 < i < |chain|
      ensures Filed(env, Archived(history, bytes, signature), chain[i - 1], chain[i], RELEASE_IDENTITY,
                    CANONICAL_REPOSITORY)
    {
      assert Filed(env, history, chain[i - 1], chain[i], RELEASE_IDENTITY, CANONICAL_REPOSITORY);
    }
  }

  lemma FirstRecordKeepsInv(env: Env, files: Files, head: Head)
    requires Usable(env) && Plausible(env, PrepareRun(head)) && Inv(env, files)
    requires files.record.None? && head.attestation.Some?
    ensures Inv(env, Written(env, files, head, head.attestation.value, 1, None))
  {
    var record := NewRecord(head, head.attestation.value, 1, None);
    NewRecordIsValid(env, head, head.attestation.value, 1, None);
    assert Chain(env, files.history, [record], record);
  }

  /** Replacing a draft keeps its position: the chain below it serves the new record as well. */
  lemma DraftReplacementKeepsInv(env: Env, files: Files, head: Head)
    requires Usable(env) && Plausible(env, PrepareRun(head)) && Inv(env, files) && head.attestation.Some?
    requires files.record.Some? && env.parse(files.record.value).Some?
    ensures var previous := env.parse(files.record.value).value;
      Inv(env, Written(env, files, head, head.attestation.value, previous.sequence, previous.predecessor))
  {
    var previous, chain :| files.record.value == env.encode(previous) && Valid(env, previous) &&
      ContinuityOf(previous) == StoreContinuity() && Chain(env, files.history, chain, previous);
    var record := NewRecord(head, head.attestation.value, previous.sequence, previous.predecessor);
    NewRecordIsValid(env, head, head.attestation.value, previous.sequence, previous.predecessor);
    var next := [record] + chain[1..];
    forall i | 0 < i < |next|
      ensures Filed(env, files.history, next[i - 1], next[i], RELEASE_IDENTITY, CANONICAL_REPOSITORY)
    {
      assert Filed(env, files.history, chain[i - 1], chain[i], RELEASE_IDENTITY, CANONICAL_REPOSITORY);
    }
    assert Chain(env, files.history, next, record);
  }

  /** Chaining from a verified record archives it and puts the new one on top. */
  lemma SuccessorKeepsInv(env: Env, files: Files, head: Head)
    requires Usable(env) && Plausible(env, PrepareRun(head)) && Inv(env, files) && head.attestation.Some?
    requires files.record.Some? && files.signature.Some? && env.parse(files.record.value).Some?
    ensures var bytes := files.record.value;
      var previous := env.parse(bytes).value;
      var archived := files.(history := Archived(files.history, bytes, files.signature.value));
      Inv(env, Written(env, archived, head, head.attestation.value, previous.sequence + 1, Some(Hex64(Sha256(bytes)))))
  {
    var bytes, signature := files.record.value, files.signature.value;
    var previous, chain :| bytes == env.encode(previous) && Valid(env, previous) &&
      ContinuityOf(previous) == StoreContinuity() && Chain(env, files.history, chain, previous);
    var history := Archived(files.history, bytes, signature);
    var record := NewRecord(head, head.attestation.value, previous.sequence + 1, Some(Hex64(Sha256(bytes))));
    NewRecordIsValid(env, head, head.attestation.value, previous.sequence + 1, Some(Hex64(Sha256(bytes))));
    ChainSurvivesArchiving(env, files.history, chain, previous, bytes, signature);
    assert Filed(env, history, record, previous, RELEASE_IDENTITY, CANONICAL_REPOSITORY);
    var next := [record] + chain;
    forall i | 0 < i < |next|
      ensures Filed(env, history, next[i - 1], next[i], RELEASE_IDENTITY, CANONICAL_REPOSITORY)
    {
      if i > 1 {
        assert Filed(env, history, chain[i - 2], chain[i - 1], RELEASE_IDENTITY, CANONICAL_REPOSITORY);
      }
    }
    assert Chain(env, history, next, record);
  }

  lemma StepKeepsInv(env: Env, files: Files, event: Event)
    requires Usable(env) && Plausible(env, event) && Inv(env, files)
    ensures Inv(env, Step(env, files, event))
  {
    if event.PrepareRun? && Prepared(env, files, event.head).Ok? {
      if files.record.None? {
        FirstRecordKeepsInv(env, files, event.head);
      } else if files.signature.None? {
        DraftReplacementKeepsInv(env, files, event.head);
      } else {
        SuccessorKeepsInv(env, files, event.head);
      }
    }
  }

  lemma {:induction false} RunKeepsInv(env: Env, events: seq<Event>)
    requires Usable(env) && forall i :: 0 <= i < |events| ==> Plausible(env, events[i])
    ensures Inv(env, Run(env, EMPTY_STORE, events))
    decreases |events|
  {
    if events != [] {
      RunKeepsInv(env, events[..|events| - 1]);
      StepKeepsInv(env, Run(env, EMPTY_STORE, events[..|events| - 1]), events[|events| - 1]);
    }
  }

  /** The signature verified under the signers of one of these runs. */
  ghost predicate VerifiedThen(events: seq<Event>, bytes: Bytes, signature: Signature) {
    exists i :: 0 <= i < |events| && VerifiedAt(events[i], bytes, signature)
  }

  predicate VerifiedAt(event: Event, bytes: Bytes, signature: Signature) {
    event.PrepareRun? && event.head.allowedSigners.Some? && event.head.allowedSigners.value(bytes, signature)
  }

  lemma StepArchivesVerified(env: Env, files: Files, event: Event, digest: Digest)
    requires HistoryInv(files.history) && digest in Step(env, files, event).history.records
    ensures var history := Step(env, files, event).history;
      && HistoryInv(history)
      && (if digest in files.history.records
          then history.records[digest] == files.history.records[digest]
            && history.signatures[digest] == files.history.signatures[digest]
          else VerifiedAt(event, history.records[digest], history.signatures[digest]))
  {
  }

  lemma VerifiedStill(events: seq<Event>, bytes: Bytes, signature: Signature)
    requires events != []
    requires
      || VerifiedThen(events[..|events| - 1], bytes, signature)
      || VerifiedAt(events[|events| - 1], bytes, signature)
    ensures VerifiedThen(events, bytes, signature)
  {
    var before := events[..|events| - 1];
    if i :| 0 <= i < |before| && VerifiedAt(before[i], bytes, signature) {
      assert VerifiedAt(events[i], bytes, signature);
    }
  }

  /** Nothing is archived whose signature did not verify when it was archived. */
  lemma {:induction false} ArchivedWereVerified(env: Env, events: seq<Event>, digest: Digest)
    requires Usable(env) && forall i :: 0 <= i < |events| ==> Plausible(env, events[i])
    requires digest in Run(env, EMPTY_STORE, events).history.records
    ensures var history := Run(env, EMPTY_STORE, events).history;
      digest in history.signatures && VerifiedThen(events, history.records[digest], history.signatures[digest])
    decreases |events|
  {
    var before, event := events[..|events| - 1], events[|events| - 1];
    var files := Run(env, EMPTY_STORE, before);
    RunKeepsInv(env, before);
    if digest in files.history.records {
      ArchivedWereVerified(env, before, digest);
    }
    StepArchivesVerified(env, files, event, digest);
    var history := Step(env, files, event).history;
    VerifiedStill(events, history.records[digest], history.signatures[digest]);
  }

  /** What the verifier of `env` says about the store: it accepts the history of `record` exactly when `holds`, and
      approves a target exactly when the record is about that target and its signature verifies as well. */
  ghost predicate Verdicts(env: Env, files: Files, record: Approval, holds: bool) {
    && files.record == Some(env.encode(record)) && record.attestationDigest.Hex64?
    && var bytes := files.record.value;
      && (holds <==>
        HistoryError(env, record, bytes, Some(files.history), RELEASE_IDENTITY, CANONICAL_REPOSITORY).None?)
      && (files.signature.Some? ==>
        forall target :: ApprovedFor(env, files, target) <==>
          IsFor(record, target) && env.verifies(bytes, files.signature.value) && holds)
  }

  predicate ApprovedFor(env: Env, files: Files, target: Target)
    requires files.record.Some? && files.signature.Some?
  {
    ApprovalError(env, files.record.value, files.signature.value, Some(files.history), target, RELEASE_IDENTITY,
                  CANONICAL_REPOSITORY).None?
  }

  /** Writer meets verifier: after any sequence of prepare and sign runs from an empty store, with drafts replaced, with
      signatures that may not verify and with other allowed signers at every run, the chain of the current record is
      archived. The history walk, under signers of its own, accepts exactly when the sequence is at most 128 and every
      archived signature of that chain verifies; full approval further needs its own signature, and the record's own
      target. */
  lemma ReachableStoresVerify(env: Env, events: seq<Event>)
    requires Usable(env) && forall i :: 0 <= i < |events| ==> Plausible(env, events[i])
    requires Run(env, EMPTY_STORE, events).record.Some?
    ensures var files := Run(env, EMPTY_STORE, events);
      && env.parse(files.record.value).Some?
      && var record := env.parse(files.record.value).value;
        exists chain :: Chain(env, files.history, chain, record) &&
          Verdicts(env, files, record,
                   record.sequence <= MAX_APPROVAL_CHAIN_LENGTH && SignaturesHold(env, files.history, chain))
  {
    RunKeepsInv(env, events);
    var files := Run(env, EMPTY_STORE, events);
    var record, chain :| files.record.value == env.encode(record) && Valid(env, record) &&
      ContinuityOf(record) == StoreContinuity() && Chain(env, files.history, chain, record);
    assert env.parse(env.encode(record)) == Some(record);
    StoreVerdicts(env, files, record, chain);
  }

  lemma StoreVerdicts(env: Env, files: Files, record: Approval, chain: seq<Approval>)
    requires RoundTrips(env) && Chain(env, files.history, chain, record) && Valid(env, record)
    requires files.record == Some(env.encode(record))
    ensures Verdicts(env, files, record,
                     record.sequence <= MAX_APPROVAL_CHAIN_LENGTH && SignaturesHold(env, files.history, chain))
  {
    RecordSoundExactly(env, record, RELEASE_IDENTITY, CANONICAL_REPOSITORY);
    FiledAcceptedExactly(env, files.history, chain, record, RELEASE_IDENTITY, CANONICAL_REPOSITORY);
    HistoryAcceptsExactlyCompleteChains(env, record, Some(files.history), RELEASE_IDENTITY, CANONICAL_REPOSITORY);
    if files.signature.Some? {
      forall target
        ensures ApprovedFor(env, files, target) <==>
          && IsFor(record, target) && env.verifies(files.record.value, files.signature.value)
          && record.sequence <= MAX_APPROVAL_CHAIN_LENGTH && SignaturesHold(env, files.history, chain)
      {
        OwnRecordApproves(env, record, files.signature.value, Some(files.history), target, RELEASE_IDENTITY,
                          CANONICAL_REPOSITORY);
      }
    }
  }

  /** With the signers of the walk at every run, the walk accepts exactly when the sequence is at most 128. */
  lemma SameSignersVerify(env: Env, events: seq<Event>)
    requires Usable(env) && forall i :: 0 <= i < |events| ==> Plausible(env, events[i])
    requires Run(env, EMPTY_STORE, events).record.Some?
    requires forall i :: 0 <= i < |events| && events[i].PrepareRun? && events[i].head.allowedSigners.Some? ==>
      events[i].head.allowedSigners.value == env.verifies
    ensures var files := Run(env, EMPTY_STORE, events);
      && env.parse(files.record.value).Some?
      && var record := env.parse(files.record.value).value;
        Verdicts(env, files, record, record.sequence <= MAX_APPROVAL_CHAIN_LENGTH)
  {
    ReachableStoresVerify(env, events);
    var files := Run(env, EMPTY_STORE, events);
    var record := env.parse(files.record.value).value;
    var chain :| Chain(env, files.history, chain, record) &&
      Verdicts(env, files, record,
               record.sequence <= MAX_APPROVAL_CHAIN_LENGTH && SignaturesHold(env, files.history, chain));
    forall i | 0 < i < |chain| ensures SignatureHolds(env, files.history, chain[i]) {
      assert Filed(env, files.history, chain[i - 1], chain[i], RELEASE_IDENTITY, CANONICAL_REPOSITORY);
      ArchivedWereVerified(env, events, Sha256(env.encode(chain[i])));
    }
  }

  /** A run on top of a verified record for a new commit extends the chain by one; on an unsigned draft it keeps the
      draft's sequence and predecessor. Either way the new record is unsigned. */
  lemma PrepareAdvances(env: Env, events: seq<Event>, head: Head)
    requires Usable(env) && forall i :: 0 <= i < |events| ==> Plausible(env, events[i])
    requires Run(env, EMPTY_STORE, events).record.Some?
    requires head.clean && head.verified && head.attestation.Some? && head.allowedSigners.Some?
    ensures var files := Run(env, EMPTY_STORE, events);
      var bytes := files.record.value;
      && env.parse(bytes).Some?
      && var previous := env.parse(bytes).value;
        && (files.signature.Some? && head.allowedSigners.value(bytes, files.signature.value)
            && previous.targetCommit != head.commit ==>
          && Prepared(env, files, head).Ok? && Prepared(env, files, head).value.signature.None?
          && Prepared(env, files, head).value.record ==
            Some(env.encode(NewRecord(head, head.attestation.value, previous.sequence + 1,
                                      Some(Hex64(Sha256(bytes)))))))
        && (files.signature.None? ==>
          && Prepared(env, files, head).Ok? && Prepared(env, files, head).value.signature.None?
          && Prepared(env, files, head).value.history == files.history
          && Prepared(env, files, head).value.record ==
            Some(env.encode(NewRecord(head, head.attestation.value, previous.sequence, previous.predecessor))))
  {
    RunKeepsInv(env, events);
    var files := Run(env, EMPTY_STORE, events);
    var record, chain :| files.record.value == env.encode(record) && Valid(env, record) &&
      ContinuityOf(record) == StoreContinuity() && Chain(env, files.history, chain, record);
    assert env.parse(env.encode(record)) == Some(record);
  }

  /** What a run at `head` records: this commit, tree and attestation, at this place of the chain. */
  predicate Records(record: Approval, head: Head, sequence: int, predecessor: Option<DigestField>) {
    && record.targetCommit == head.commit && record.targetTree == head.tree
    && record.attestationPath == "docs/reviews/FEATURE-020-REFREEZE-ATTESTATION-v11.md"
    && head.attestation == (if record.attestationDigest.Hex64? then Some(record.attestationDigest.digest) else None)
    && record.releaseIdentity == "symforge-release@special-place-ai-heaven" && record.approvedAt == head.now
    && record.storeLocator == "local-operator-approval-store" && record.storeVersion == 1
    && record.sequence == sequence && record.predecessor == predecessor
  }

  /** The tree is committed, verified and attested. */
  predicate Presentable(head: Head) {
    head.clean && head.verified && head.attestation.Some?
  }

  /** The signed record of the store may be chained from: its signature verifies and it is of another commit. */
  predicate Chainable(env: Env, files: Files, head: Head) {
    files.record.Some? && files.signature.Some? && env.parse(files.record.value).Some?
    && head.allowedSigners.Some? && head.allowedSigners.value(files.record.value, files.signature.value)
    && env.parse(files.record.value).value.targetCommit != head.commit
  }

  /** The store after a successful run: one new unsigned record, in the place of a draft, behind the archived signed
      record, or first of all. */
  predicate Advanced(env: Env, before: Files, head: Head, after: Files, record: Approval) {
    && after.record == Some(env.encode(record)) && after.signature.None?
    && SoundRecord(env, record, "symforge-release@special-place-ai-heaven")
    && if before.record.None? then Records(record, head, 1, None) && after.history == before.history
       else
         && env.parse(before.record.value).Some?
         && var bytes, previous := before.record.value, env.parse(before.record.value).value;
           if before.signature.None?
           then Records(record, head, previous.sequence, previous.predecessor) && after.history == before.history
           else
             && Records(record, head, previous.sequence + 1, Some(Hex64(Sha256(bytes))))
             && after.history.records == before.history.records[Sha256(bytes) := bytes]
             && after.history.signatures ==
               if Sha256(bytes) in before.history.records then before.history.signatures
               else before.history.signatures[Sha256(bytes) := before.signature.value]
  }

  /** In every reachable store, a run succeeds exactly when the tree is presentable and the record is missing, a draft,
      or one to chain from; it then leaves exactly one new record in its place. Otherwise the refusal names what was
      missing first. */
  lemma PrepareExactly(env: Env, events: seq<Event>, head: Head)
    requires Usable(env) && (forall i :: 0 <= i < |events| ==> Plausible(env, events[i]))
    requires Plausible(env, PrepareRun(head))
    ensures var files := Run(env, EMPTY_STORE, events);
      var prepared := Prepared(env, files, head);
      && (prepared.Ok? <==>
        Presentable(head) && (files.record.Some? && files.signature.Some? ==> Chainable(env, files, head)))
      && (prepared.Ok? ==> exists record :: Advanced(env, files, head, prepared.value, record))
      && (prepared.Err? ==> RefusedFor(env, files, head, prepared.error))
  {
    RunKeepsInv(env, events);
    var files := Run(env, EMPTY_STORE, events);
    if files.record.Some? {
      var record, chain :| files.record.value == env.encode(record) && Valid(env, record) &&
        ContinuityOf(record) == StoreContinuity() && Chain(env, files.history, chain, record);
      PreparedOnRecord(env, files, head, record);
    } else {
      PreparedFirst(env, files, head);
    }
  }

  predicate RefusedFor(env: Env, files: Files, head: Head, refusal: Refusal) {
    match refusal
    case DirtyTree => !head.clean
    case InternalVerificationFailed => head.clean && !head.verified
    case AttestationMissing => head.clean && head.verified && head.attestation.None?
    case NoAllowedSigners => Presentable(head) && files.signature.Some? && head.allowedSigners.None?
    case PredecessorUnverified =>
      && Presentable(head) && files.record.Some? && files.signature.Some? && head.allowedSigners.Some?
      && !head.allowedSigners.value(files.record.value, files.signature.value)
    case NothingNew =>
      && Presentable(head) && files.record.Some? && files.signature.Some? && env.parse(files.record.value).Some?
      && env.parse(files.record.value).value.targetCommit == head.commit
    case _ => false
  }

  lemma PreparedFirst(env: Env, files: Files, head: Head)
    requires Usable(env) && Plausible(env, PrepareRun(head)) && files.record.None? && files.signature.None?
    ensures var prepared := Prepared(env, files, head);
      && (prepared.Ok? <==> Presentable(head))
      && (prepared.Ok? ==> exists record :: Advanced(env, files, head, prepared.value, record))
      && (prepared.Err? ==> RefusedFor(env, files, head, prepared.error))
  {
    if Presentable(head) {
      NewRecordIsSound(env, head, head.attestation.value, 1, None);
      assert Advanced(env, files, head, Prepared(env, files, head).value,
                      NewRecord(head, head.attestation.value, 1, None));
    }
  }

  lemma NewRecordIsSound(env: Env, head: Head, digest: Digest, sequence: int, predecessor: Option<DigestField>)
    requires Usable(env) && Plausible(env, PrepareRun(head)) && head.attestation == Some(digest)
    requires sequence >= 1 && (sequence == 1 <==> predecessor.None?) && (predecessor.Some? ==> predecessor.value.Hex64?)
    ensures var record := NewRecord(head, digest, sequence, predecessor);
      && SoundRecord(env, record, "symforge-release@special-place-ai-heaven")
      && Records(record, head, sequence, predecessor)
  {
    NewRecordIsValid(env, head, digest, sequence, predecessor);
    RecordSoundExactly(env, NewRecord(head, digest, sequence, predecessor), RELEASE_IDENTITY, CANONICAL_REPOSITORY);
  }

  lemma PreparedOnRecord(env: Env, files: Files, head: Head, previous: Approval)
    requires Usable(env) && Plausible(env, PrepareRun(head)) && HistoryInv(files.history)
    requires files.record == Some(env.encode(previous)) && Valid(env, previous)
    ensures var prepared := Prepared(env, files, head);
      && (prepared.Ok? <==> Presentable(head) && (files.signature.Some? ==> Chainable(env, files, head)))
      && (prepared.Ok? ==> exists record :: Advanced(env, files, head, prepared.value, record))
      && (prepared.Err? ==> RefusedFor(env, files, head, prepared.error))
  {
    assert env.parse(env.encode(previous)) == Some(previous);
    RecordSoundExactly(env, previous, RELEASE_IDENTITY, CANONICAL_REPOSITORY);
    if Presentable(head) {
      if files.signature.None? {
        DraftAdvances(env, files, head, previous);
      } else if Chainable(env, files, head) {
        SignedAdvances(env, files, head, previous);
      }
    }
  }

  lemma DraftAdvances(env: Env, files: Files, head: Head, previous: Approval)
    requires Usable(env) && Plausible(env, PrepareRun(head)) && Presentable(head)
    requires files.record == Some(env.encode(previous)) && files.signature.None?
    requires SoundRecord(env, previous, RELEASE_IDENTITY)
    ensures Prepared(env, files, head).Ok?
    ensures Advanced(env, files, head, Prepared(env, files, head).value,
                     NewRecord(head, head.attestation.value, previous.sequence, previous.predecessor))
  {
    assert env.parse(env.encode(previous)) == Some(previous);
    NewRecordIsSound(env, head, head.attestation.value, previous.sequence, previous.predecessor);
  }

  lemma SignedAdvances(env: Env, files: Files, head: Head, previous: Approval)
    requires Usable(env) && Plausible(env, PrepareRun(head)) && Presentable(head) && HistoryInv(files.history)
    requires files.record == Some(env.encode(previous)) && Chainable(env, files, head)
    requires SoundRecord(env, previous, RELEASE_IDENTITY)
    ensures Prepared(env, files, head).Ok?
    ensures Advanced(env, files, head, Prepared(env, files, head).value,
                     NewRecord(head, head.attestation.value, previous.sequence + 1,
                               Some(Hex64(Sha256(env.encode(previous))))))
  {
    var bytes := env.encode(previous);
    assert env.parse(bytes) == Some(previous);
    if Sha256(bytes) in files.history.records {
      assert files.history.records[Sha256(bytes)] == bytes;
      assert files.history.records[Sha256(bytes) := bytes] == files.history.records;
    }
    NewRecordIsSound(env, head, head.attestation.value, previous.sequence + 1, Some(Hex64(Sha256(bytes))));
  }

  /** From HEAD to approval: after a successful run at `head` on a reachable store and any signature, a target is
      approved exactly when it is this commit, tree and attestation, the signature verifies, the sequence is at most 128
      and every archived signature of the chain verifies. */
  lemma PreparedIsApprovedFor(env: Env, events: seq<Event>, head: Head, signature: Signature, target: Target)
    requires Usable(env) && (forall i :: 0 <= i < |events| ==> Plausible(env, events[i]))
    requires Plausible(env, PrepareRun(head)) && Prepared(env, Run(env, EMPTY_STORE, events), head).Ok?
    ensures var files := Step(env, Step(env, Run(env, EMPTY_STORE, events), PrepareRun(head)), SignRun(signature));
      && files.record.Some? && files.signature == Some(signature) && env.parse(files.record.value).Some?
      && var bytes, record := files.record.value, env.parse(files.record.value).value;
        exists chain :: Chain(env, files.history, chain, record) &&
          (ApprovalError(env, bytes, signature, Some(files.history), target, RELEASE_IDENTITY,
                         CANONICAL_REPOSITORY).None? <==>
           && target.commit == head.commit && target.tree == head.tree
           && target.attestationPath == "docs/reviews/FEATURE-020-REFREEZE-ATTESTATION-v11.md"
           && head.attestation == Some(target.attestationDigest)
           && env.verifies(bytes, signature) && record.sequence <= 128
           && SignaturesHold(env, files.history, chain))
  {
    var before := Run(env, EMPTY_STORE, events);
    RunKeepsInv(env, events);
    StepKeepsInv(env, before, PrepareRun(head));
    PrepareExactly(env, events, head);
    var files := Step(env, Step(env, before, PrepareRun(head)), SignRun(signature));
    var record, chain :| files.record.value == env.encode(record) && Valid(env, record) &&
      ContinuityOf(record) == StoreContinuity() && Chain(env, files.history, chain, record);
    assert env.parse(env.encode(record)) == Some(record);
    var written :| Advanced(env, before, head, Prepared(env, before, head).value, written);
    assert env.parse(env.encode(written)) == Some(written);
    SignedIsApprovedFor(env, files.history, record, chain, signature, head, target);
  }

  lemma SignedIsApprovedFor(env: Env, history: History, record: Approval, chain: seq<Approval>, signature: Signature,
                            head: Head, target: Target)
    requires RoundTrips(env) && Chain(env, history, chain, record)
    requires SoundRecord(env, record, RELEASE_IDENTITY) && Records(record, head, record.sequence, record.predecessor)
    ensures ApprovalError(env, env.encode(record), signature, Some(history), target, RELEASE_IDENTITY,
                          CANONICAL_REPOSITORY).None? <==>
      && target.commit == head.commit && target.tree == head.tree
      && target.attestationPath == "docs/reviews/FEATURE-020-REFREEZE-ATTESTATION-v11.md"
      && head.attestation == Some(target.attestationDigest)
      && env.verifies(env.encode(record), signature) && record.sequence <= 128
      && SignaturesHold(env, history, chain)
  {
    OwnRecordApproves(env, record, signature, Some(history), target, RELEASE_IDENTITY, CANONICAL_REPOSITORY);
    FiledAcceptedExactly(env, history, chain, record, RELEASE_IDENTITY, CANONICAL_REPOSITORY);
    HistoryAcceptsExactlyCompleteChains(env, record, Some(history), RELEASE_IDENTITY, CANONICAL_REPOSITORY);
  }
}
