/** Refreeze approval records: their validation and the verifier's walk along the digest-linked history. */
module ApprovalChain {
  import opened Common

  type Bytes = seq<byte>

  type Signature = seq<byte>

  /** A digest field of a parsed record: 64 hex digits, or something else. */
  datatype DigestField = Hex64(digest: Digest) | Malformed(text: string)

  datatype Approval = Approval(
    kind: string, schemaVersion: int, repository: string, purpose: string, targetCommit: string, targetTree: string,
    attestationPath: string, attestationDigest: DigestField, releaseIdentity: string, approvedAt: string, sequence: int,
    storeLocator: string, storeVersion: int, predecessor: Option<DigestField>, signatureNamespace: string)

  /** What the model takes from outside: canonical JSON of a record and its parser, signature verification against the
      allowed signers, repository path syntax and ISO times with a zone. */
  datatype Env = Env(
    encode: Approval -> Bytes, parse: Bytes -> Option<Approval>, verifies: (Bytes, Signature) -> bool,
    repoPath: string -> bool, zonedTime: string -> bool)

  /** Parsing canonical JSON gives the record back. */
  ghost predicate RoundTrips(env: Env) {
    forall record :: env.parse(env.encode(record)) == Some(record)
  }

  const RECORD_KIND := "symforge-feature-020-refreeze-approval"
  const CANONICAL_REPOSITORY := "special-place-ai-heaven/symforge"
  const APPROVAL_PURPOSE := "implementation_start"
  const SIGNATURE_NAMESPACE := "symforge-feature-020-refreeze-v11"
  const MAX_APPROVAL_CHAIN_LENGTH := 128

  predicate HexText(text: string, length: nat) {
    |text| == length && forall i :: 0 <= i < length ==> '0' <= text[i] <= '9' || 'a' <= text[i] <= 'f'
  }

  predicate GitOid(text: string) {
    HexText(text, 40) || HexText(text, 64)
  }

  predicate IdentitySyntax(text: string) {
    text != "" && |text| <= 256 && text[0] != '-' && forall i :: 0 <= i < |text| ==> 0x21 <= text[i] as int <= 0x7E
  }

  datatype Error =
    | JsonInvalid | NotCanonical | KindInvalid | SchemaInvalid | RepositoryInvalid | PurposeInvalid
    | TargetCommitInvalid | TargetTreeInvalid | PathInvalid | AttestationDigestInvalid | IdentityInvalid
    | IdentityMismatch | TimeInvalid | SequenceInvalid | StoreLocatorInvalid | StoreVersionInvalid
    | PredecessorInvalid | NamespaceInvalid | HistoryBoundExceeded | HistoryRequired | HistoryCycle
    | HistoryFileInvalid | HistoryDigestMismatch | HistoryNotCanonical | SequenceMismatch | ContinuityMismatch
    | HistorySignatureInvalid | CommitMismatch | TreeMismatch | AttestationPathMismatch | AttestationHashMismatch
    | SignatureInvalid

  /** `_validate_approval_record`: the first check that fails, if any. */
  function RecordError(env: Env, record: Approval, identity: string, repository: string): Option<Error> {
    if record.kind != RECORD_KIND then Some(KindInvalid)
    else if record.schemaVersion != 1 then Some(SchemaInvalid)
    else if repository != CANONICAL_REPOSITORY || record.repository != repository then Some(RepositoryInvalid)
    else if record.purpose != APPROVAL_PURPOSE then Some(PurposeInvalid)
    else if !GitOid(record.targetCommit) then Some(TargetCommitInvalid)
    else if !GitOid(record.targetTree) then Some(TargetTreeInvalid)
    else if !env.repoPath(record.attestationPath) then Some(PathInvalid)
    else if record.attestationDigest.Malformed? then Some(AttestationDigestInvalid)
    else if !IdentitySyntax(record.releaseIdentity) then Some(IdentityInvalid)
    else if record.releaseIdentity != identity then Some(IdentityMismatch)
    else if record.approvedAt == "" || !env.zonedTime(record.approvedAt) then Some(TimeInvalid)
    else if record.sequence < 1 then Some(SequenceInvalid)
    else if record.storeLocator == "" then Some(StoreLocatorInvalid)
    else if record.storeVersion < 1 then Some(StoreVersionInvalid)
    else if record.sequence == 1 && record.predecessor.Some? then Some(PredecessorInvalid)
    else if record.sequence != 1 && (record.predecessor.None? || record.predecessor.value.Malformed?) then
      Some(PredecessorInvalid)
    else if record.signatureNamespace != SIGNATURE_NAMESPACE then Some(NamespaceInvalid)
    else None
  }

  /** A record of this release identity with nothing missing or malformed. */
  predicate SoundRecord(env: Env, record: Approval, identity: string) {
    && record.kind == "symforge-feature-020-refreeze-approval" && record.schemaVersion == 1
    && record.repository == "special-place-ai-heaven/symforge" && record.purpose == "implementation_start"
    && record.signatureNamespace == "symforge-feature-020-refreeze-v11"
    && record.releaseIdentity == identity && IdentitySyntax(identity)
    && GitOid(record.targetCommit) && GitOid(record.targetTree)
    && env.repoPath(record.attestationPath) && record.attestationDigest.Hex64?
    && record.approvedAt != "" && env.zonedTime(record.approvedAt)
    && record.storeLocator != "" && record.storeVersion >= 1
    && record.sequence >= 1 && (record.sequence == 1 <==> record.predecessor.None?)
    && (record.predecessor.Some? ==> record.predecessor.value.Hex64?)
  }

  /** The validator accepts exactly the sound records of the expected identity, for the canonical repository. */
  lemma RecordSoundExactly(env: Env, record: Approval, identity: string, repository: string)
    ensures RecordError(env, record, identity, repository).None? <==>
      repository == "special-place-ai-heaven/symforge" && SoundRecord(env, record, identity)
  {
  }

  /** What is wrong with a record, by the error it is refused with. */
  predicate Blamed(env: Env, record: Approval, identity: string, repository: string, error: Error) {
    match error
    case KindInvalid => record.kind != "symforge-feature-020-refreeze-approval"
    case SchemaInvalid => record.schemaVersion != 1
    case RepositoryInvalid => record.repository != "special-place-ai-heaven/symforge" || repository != record.repository
    case PurposeInvalid => record.purpose != "implementation_start"
    case TargetCommitInvalid => !GitOid(record.targetCommit)
    case TargetTreeInvalid => !GitOid(record.targetTree)
    case PathInvalid => !env.repoPath(record.attestationPath)
    case AttestationDigestInvalid => record.attestationDigest.Malformed?
    case IdentityInvalid => !IdentitySyntax(record.releaseIdentity)
    case IdentityMismatch => record.releaseIdentity != identity
    case TimeInvalid => record.approvedAt == "" || !env.zonedTime(record.approvedAt)
    case SequenceInvalid => record.sequence < 1
    case StoreLocatorInvalid => record.storeLocator == ""
    case StoreVersionInvalid => record.storeVersion < 1
    case PredecessorInvalid =>
      if record.sequence == 1 then record.predecessor.Some?
      else record.predecessor.None? || record.predecessor.value.Malformed?
    case NamespaceInvalid => record.signatureNamespace != "symforge-feature-020-refreeze-v11"
    case _ => false
  }

  lemma RecordErrorBlames(env: Env, record: Approval, identity: string, repository: string)
    requires RecordError(env, record, identity, repository).Some?
    ensures Blamed(env, record, identity, repository, RecordError(env, record, identity, repository).value)
  {
  }

  /** The history directory: record and signature files by the digest in their names. */
  datatype History = History(records: map<Digest, Bytes>, signatures: map<Digest, Signature>)

  datatype Continuity = Continuity(
    repository: string, purpose: string, namespace: string, identity: string, locator: string, version: int)

  function ContinuityOf(record: Approval): Continuity {
    Continuity(record.repository, record.purpose, record.signatureNamespace, record.releaseIdentity,
               record.storeLocator, record.storeVersion)
  }

  /** One step of the walk: the predecessor of `cursor`, or why it is refused. The checks come in the verifier's
      order. */
  function Predecessor(env: Env, history: History, cursor: Approval, continuity: Continuity, seen: set<Digest>,
                       identity: string, repository: string): Result<Approval, Error> {
    if cursor.predecessor.None? || cursor.predecessor.value.Malformed? then Err(PredecessorInvalid)
    else
      var digest := cursor.predecessor.value.digest;
      if digest in seen then Err(HistoryCycle)
      else if digest !in history.records || digest !in history.signatures then Err(HistoryFileInvalid)
      else
        var bytes := history.records[digest];
        if Sha256(bytes) != digest then Err(HistoryDigestMismatch)
        else if env.parse(bytes).None? then Err(JsonInvalid)
        else
          var record := env.parse(bytes).value;
          var error := RecordError(env, record, identity, repository);
          if error.Some? then Err(error.value)
          else if bytes != env.encode(record) then Err(HistoryNotCanonical)
          else if record.sequence != cursor.sequence - 1 then Err(SequenceMismatch)
          else if ContinuityOf(record) != continuity then Err(ContinuityMismatch)
          else if !env.verifies(bytes, history.signatures[digest]) then Err(HistorySignatureInvalid)
          else Ok(record)
  }

  function Walk(env: Env, history: History, cursor: Approval, continuity: Continuity, seen: set<Digest>,
                identity: string, repository: string): Option<Error>
    decreases cursor.sequence
  {
    if cursor.sequence <= 1 then None
    else match Predecessor(env, history, cursor, continuity, seen, identity, repository)
      case Err(error) => Some(error)
      case Ok(record) =>
        Walk(env, history, record, continuity, seen + {cursor.predecessor.value.digest}, identity, repository)
  }

  function HistoryError(env: Env, current: Approval, currentBytes: Bytes, history: Option<History>, identity: string,
                        repository: string): Option<Error> {
    if current.sequence > MAX_APPROVAL_CHAIN_LENGTH then Some(HistoryBoundExceeded)
    else if current.sequence == 1 then None
    else if history.None? then Some(HistoryRequired)
    else Walk(env, history.value, current, ContinuityOf(current), {Sha256(currentBytes)}, identity, repository)
  }

  /** `_verify_approval_history`: the walk as the loop that moves `cursor` back and collects `seen`. */
  method VerifyApprovalHistory(env: Env, current: Approval, currentBytes: Bytes, history: Option<History>,
                               identity: string, repository: string)
    returns (error: Option<Error>)
    ensures error == HistoryError(env, current, currentBytes, history, identity, repository)
  {
    if current.sequence > MAX_APPROVAL_CHAIN_LENGTH {
      return Some(HistoryBoundExceeded);
    }
    if current.sequence == 1 {
      return None;
    }
    if history.None? {
      return Some(HistoryRequired);
    }
    var continuity := ContinuityOf(current);
    var seen := {Sha256(currentBytes)};
    var cursor := current;
    while cursor.sequence > 1
      invariant Walk(env, history.value, cursor, continuity, seen, identity, repository) ==
        HistoryError(env, current, currentBytes, history, identity, repository)
      decreases cursor.sequence
    {
      match Predecessor(env, history.value, cursor, continuity, seen, identity, repository)
      case Err(refusal) => return Some(refusal);
      case Ok(record) =>
        seen := seen + {cursor.predecessor.value.digest};
        cursor := record;
    }
    return None;
  }

  /** `below` is archived, beside a signature, under the digest `above` names: canonical, valid, one lower, same
      continuity. */
  predicate Filed(env: Env, history: History, above: Approval, below: Approval, identity: string, repository: string) {
    var bytes := env.encode(below);
    var digest := Sha256(bytes);
    && above.predecessor == Some(Hex64(digest))
    && digest in history.records && history.records[digest] == bytes && digest in history.signatures
    && RecordError(env, below, identity, repository).None?
    && below.sequence == above.sequence - 1
    && ContinuityOf(below) == ContinuityOf(above)
  }

  /** The signature archived for a record verifies. */
  predicate SignatureHolds(env: Env, history: History, record: Approval) {
    var bytes := env.encode(record);
    Sha256(bytes) in history.signatures && env.verifies(bytes, history.signatures[Sha256(bytes)])
  }

  predicate Linked(env: Env, history: History, above: Approval, below: Approval, identity: string, repository: string) {
    Filed(env, history, above, below, identity, repository) && SignatureHolds(env, history, below)
  }

  /** One record for each sequence number from that of `current` down to 1, each archived for the one before. */
  predicate FiledChain(env: Env, history: History, chain: seq<Approval>, current: Approval, identity: string,
                       repository: string) {
    && |chain| == current.sequence && |chain| > 0 && chain[0] == current
    && forall i :: 0 < i < |chain| ==> Filed(env, history, chain[i - 1], chain[i], identity, repository)
  }

  /** Every archived signature of the chain verifies. */
  predicate SignaturesHold(env: Env, history: History, chain: seq<Approval>) {
    forall i :: 0 < i < |chain| ==> SignatureHolds(env, history, chain[i])
  }

  /** The whole history of `current`: one record for each sequence number from its own down to 1, each linked to the
      next. */
  predicate CompleteChain(env: Env, history: History, chain: seq<Approval>, current: Approval, identity: string,
                          repository: string) {
    && |chain| == current.sequence && |chain| > 0 && chain[0] == current
    && forall i :: 0 < i < |chain| ==> Linked(env, history, chain[i - 1], chain[i], identity, repository)
  }

  lemma CompleteIsFiledAndSigned(env: Env, history: History, chain: seq<Approval>, current: Approval, identity: string,
                                 repository: string)
    ensures CompleteChain(env, history, chain, current, identity, repository) <==>
      FiledChain(env, history, chain, current, identity, repository) && SignaturesHold(env, history, chain)
  {
    if CompleteChain(env, history, chain, current, identity, repository) {
      forall i | 0 < i < |chain|
        ensures Filed(env, history, chain[i - 1], chain[i], identity, repository)
        ensures SignatureHolds(env, history, chain[i])
      {
        assert Linked(env, history, chain[i - 1], chain[i], identity, repository);
      }
    }
    if FiledChain(env, history, chain, current, identity, repository) && SignaturesHold(env, history, chain) {
      forall i | 0 < i < |chain|
        ensures Linked(env, history, chain[i - 1], chain[i], identity, repository)
      {
        assert Filed(env, history, chain[i - 1], chain[i], identity, repository);
      }
    }
  }

  /** A record has one chain only: each link names the digest of the next record. */
  lemma {:induction false} FiledAlike(env: Env, history: History, a: seq<Approval>, b: seq<Approval>, current: Approval,
                                      identity: string, repository: string, i: nat)
    requires RoundTrips(env) && i < |a|
    requires FiledChain(env, history, a, current, identity, repository)
    requires FiledChain(env, history, b, current, identity, repository)
    ensures |a| == |b| && a[i] == b[i]
  {
    if i > 0 {
      FiledAlike(env, history, a, b, current, identity, repository, i - 1);
      assert Filed(env, history, a[i - 1], a[i], identity, repository);
      assert Filed(env, history, b[i - 1], b[i], identity, repository);
      assert env.parse(env.encode(a[i])) == Some(a[i]) && env.parse(env.encode(b[i])) == Some(b[i]);
    }
  }

  /** With its chain archived, the walk accepts a record exactly when its sequence is at most 128 and every archived
      signature of the chain verifies under the signers of the walk. */
  lemma FiledAcceptedExactly(env: Env, history: History, chain: seq<Approval>, current: Approval, identity: string,
                             repository: string)
    requires RoundTrips(env) && FiledChain(env, history, chain, current, identity, repository)
    ensures HistoryError(env, current, env.encode(current), Some(history), identity, repository).None? <==>
      current.sequence <= MAX_APPROVAL_CHAIN_LENGTH && SignaturesHold(env, history, chain)
  {
    HistoryAcceptsExactlyCompleteChains(env, current, Some(history), identity, repository);
    CompleteIsFiledAndSigned(env, history, chain, current, identity, repository);
    if other :| CompleteChain(env, history, other, current, identity, repository) {
      CompleteIsFiledAndSigned(env, history, other, current, identity, repository);
      forall i | 0 <= i < |chain| ensures chain[i] == other[i] {
        FiledAlike(env, history, chain, other, current, identity, repository, i);
      }
      assert chain == other;
    }
  }

  lemma {:induction false} ChainSequences(env: Env, history: History, chain: seq<Approval>, current: Approval,
                                          identity: string, repository: string, i: nat)
    requires CompleteChain(env, history, chain, current, identity, repository) && i < |chain|
    ensures chain[i].sequence == current.sequence - i && ContinuityOf(chain[i]) == ContinuityOf(current)
  {
    if i > 0 {
      ChainSequences(env, history, chain, current, identity, repository, i - 1);
      assert Linked(env, history, chain[i - 1], chain[i], identity, repository);
    }
  }

  /** Acceptance of the rest of the walk gives the rest of the chain. */
  lemma {:induction false} WalkBuildsChain(env: Env, history: History, cursor: Approval, seen: set<Digest>,
                                           identity: string, repository: string)
    returns (chain: seq<Approval>)
    requires RoundTrips(env) && cursor.sequence >= 1
    requires Walk(env, history, cursor, ContinuityOf(cursor), seen, identity, repository).None?
    ensures CompleteChain(env, history, chain, cursor, identity, repository)
    decreases cursor.sequence
  {
    if cursor.sequence == 1 {
      chain := [cursor];
    } else {
      var below := Predecessor(env, history, cursor, ContinuityOf(cursor), seen, identity, repository).value;
      var rest := WalkBuildsChain(env, history, below, seen + {cursor.predecessor.value.digest}, identity, repository);
      chain := [cursor] + rest;
      forall i | 0 < i < |chain|
        ensures Linked(env, history, chain[i - 1], chain[i], identity, repository)
      {
        if i > 1 {
          assert Linked(env, history, rest[i - 2], rest[i - 1], identity, repository);
        }
      }
    }
  }

  /** The digests seen on the way down to position `i`. */
  function SeenTo(env: Env, chain: seq<Approval>, i: nat): set<Digest>
    requires i < |chain|
  {
    set j | 0 <= j <= i :: Sha256(env.encode(chain[j]))
  }

  /** A complete chain is accepted from every position; the cycle check never fires, because a repeated digest would be
      a repeated record and every record has its own sequence number. */
  lemma {:induction false} ChainIsAccepted(env: Env, history: History, chain: seq<Approval>, current: Approval,
                                           identity: string, repository: string, i: nat)
    requires RoundTrips(env) && CompleteChain(env, history, chain, current, identity, repository) && i < |chain|
    ensures Walk(env, history, chain[i], ContinuityOf(current), SeenTo(env, chain, i), identity, repository).None?
    decreases |chain| - i
  {
    ChainSequences(env, history, chain, current, identity, repository, i);
    if i + 1 < |chain| {
      var below := chain[i + 1];
      ChainSequences(env, history, chain, current, identity, repository, i + 1);
      assert Linked(env, history, chain[i], below, identity, repository);
      var digest := Sha256(env.encode(below));
      forall j | 0 <= j <= i
        ensures env.encode(chain[j]) != env.encode(below)
      {
        ChainSequences(env, history, chain, current, identity, repository, j);
        assert env.parse(env.encode(chain[j])) == Some(chain[j]) && env.parse(env.encode(below)) == Some(below);
      }
      var seen := SeenTo(env, chain, i);
      assert Predecessor(env, history, chain[i], ContinuityOf(current), seen, identity, repository) == Ok(below);
      assert SeenTo(env, chain, i + 1) == SeenTo(env, chain, i) + {digest};
      ChainIsAccepted(env, history, chain, current, identity, repository, i + 1);
    }
  }

  /** The history walk accepts a canonical record exactly when its sequence is at most 128 and, beyond sequence 1, the
      history directory has its complete chain: exactly one record per sequence number, digest-linked, canonical, signed
      and with one continuity. */
  lemma HistoryAcceptsExactlyCompleteChains(env: Env, current: Approval, history: Option<History>, identity: string,
                                            repository: string)
    requires RoundTrips(env) && current.sequence >= 1
    ensures HistoryError(env, current, env.encode(current), history, identity, repository).None? <==>
      current.sequence == 1 ||
      (current.sequence <= MAX_APPROVAL_CHAIN_LENGTH && history.Some? &&
       exists chain :: CompleteChain(env, history.value, chain, current, identity, repository))
  {
    var seen := {Sha256(env.encode(current))};
    if 1 < current.sequence <= MAX_APPROVAL_CHAIN_LENGTH && history.Some? {
      if Walk(env, history.value, current, ContinuityOf(current), seen, identity, repository).None? {
        var chain := WalkBuildsChain(env, history.value, current, seen, identity, repository);
      }
      if chain :| CompleteChain(env, history.value, chain, current, identity, repository) {
        ChainIsAccepted(env, history.value, chain, current, identity, repository, 0);
        assert SeenTo(env, chain, 0) == seen;
      }
    }
  }

  /** What internal verification establishes about the target commit. */
  datatype Target = Target(commit: string, tree: string, attestationPath: string, attestationDigest: Digest)

  /** `verify_approval`, after internal verification of the target: the first check that fails, if any. */
  function ApprovalError(env: Env, bytes: Bytes, signature: Signature, history: Option<History>, target: Target,
                         identity: string, repository: string): Option<Error> {
    if env.parse(bytes).None? then Some(JsonInvalid)
    else
      var record := env.parse(bytes).value;
      if RecordError(env, record, identity, repository).Some? then RecordError(env, record, identity, repository)
      else if bytes != env.encode(record) then Some(NotCanonical)
      else if record.targetCommit != target.commit then Some(CommitMismatch)
      else if record.targetTree != target.tree then Some(TreeMismatch)
      else if record.attestationPath != target.attestationPath then Some(AttestationPathMismatch)
      else if record.attestationDigest != Hex64(target.attestationDigest) then Some(AttestationHashMismatch)
      else if record.sequence > 1 && history.None? then Some(HistoryRequired)
      else if !env.verifies(bytes, signature) then Some(SignatureInvalid)
      else HistoryError(env, record, bytes, history, identity, repository)
  }

  /** The record is about this very commit, tree and attestation. */
  predicate IsFor(record: Approval, target: Target) {
    && record.targetCommit == target.commit && record.targetTree == target.tree
    && record.attestationPath == target.attestationPath && record.attestationDigest == Hex64(target.attestationDigest)
  }

  /** A first record, or one whose complete chain of at most 128 is in the history. */
  ghost predicate Rooted(env: Env, history: Option<History>, record: Approval, identity: string, repository: string) {
    record.sequence == 1 ||
    (record.sequence <= 128 && history.Some? &&
     exists chain :: CompleteChain(env, history.value, chain, record, identity, repository))
  }

  /** The bytes are the canonical text of a sound, rooted and signed record of the target. */
  ghost predicate Approves(env: Env, bytes: Bytes, signature: Signature, history: Option<History>, target: Target,
                           identity: string, repository: string, record: Approval) {
    && bytes == env.encode(record) && SoundRecord(env, record, identity) && IsFor(record, target)
    && env.verifies(bytes, signature) && Rooted(env, history, record, identity, repository)
  }

  /** For all bytes, signatures, histories and targets: `verify_approval` approves exactly the signed canonical text of
      a sound record of that target with a complete history. */
  lemma ApprovedExactly(env: Env, bytes: Bytes, signature: Signature, history: Option<History>, target: Target,
                        identity: string, repository: string)
    requires RoundTrips(env)
    ensures ApprovalError(env, bytes, signature, history, target, identity, repository).None? <==>
      repository == "special-place-ai-heaven/symforge" &&
      exists record :: Approves(env, bytes, signature, history, target, identity, repository, record)
  {
    if env.parse(bytes).Some? && bytes == env.encode(env.parse(bytes).value) {
      OwnRecordApproves(env, env.parse(bytes).value, signature, history, target, identity, repository);
    }
    if record :| Approves(env, bytes, signature, history, target, identity, repository, record) {
      assert env.parse(env.encode(record)) == Some(record);
    }
  }

  lemma OwnRecordApproves(env: Env, record: Approval, signature: Signature, history: Option<History>, target: Target,
                          identity: string, repository: string)
    requires RoundTrips(env)
    ensures ApprovalError(env, env.encode(record), signature, history, target, identity, repository).None? <==>
      repository == "special-place-ai-heaven/symforge" &&
      Approves(env, env.encode(record), signature, history, target, identity, repository, record)
  {
    assert env.parse(env.encode(record)) == Some(record);
    RecordSoundExactly(env, record, identity, repository);
    if record.sequence >= 1 {
      HistoryAcceptsExactlyCompleteChains(env, record, history, identity, repository);
    }
  }

  /** A sound canonical record refused for its target or its signature differs there. */
  lemma ApprovalErrorBlames(env: Env, record: Approval, signature: Signature, history: Option<History>, target: Target,
                            identity: string, repository: string)
    requires RoundTrips(env)
    ensures var error := ApprovalError(env, env.encode(record), signature, history, target, identity, repository);
      && (error == Some(CommitMismatch) ==> record.targetCommit != target.commit)
      && (error == Some(TreeMismatch) ==> record.targetTree != target.tree)
      && (error == Some(AttestationPathMismatch) ==> record.attestationPath != target.attestationPath)
      && (error == Some(AttestationHashMismatch) ==> record.attestationDigest != Hex64(target.attestationDigest))
      && (error == Some(SignatureInvalid) ==> !env.verifies(env.encode(record), signature))
      && error != Some(NotCanonical)
  {
    assert env.parse(env.encode(record)) == Some(record);
    if RecordError(env, record, identity, repository).Some? {
      RecordErrorBlames(env, record, identity, repository);
    }
    if history.Some? {
      var seen := {Sha256(env.encode(record))};
      WalkBlamesHistory(env, history.value, record, ContinuityOf(record), seen, identity, repository);
    }
  }

  predicate AboutTarget(error: Error) {
    error in {CommitMismatch, TreeMismatch, AttestationPathMismatch, AttestationHashMismatch, SignatureInvalid,
              NotCanonical}
  }

  /** The walk never blames the target, nor the current record's own text and signature. */
  lemma {:induction false} WalkBlamesHistory(env: Env, history: History, cursor: Approval, continuity: Continuity,
                                             seen: set<Digest>, identity: string, repository: string)
    ensures var error := Walk(env, history, cursor, continuity, seen, identity, repository);
      error.Some? ==> !AboutTarget(error.value)
    decreases cursor.sequence
  {
    if cursor.sequence > 1 {
      match Predecessor(env, history, cursor, continuity, seen, identity, repository)
      case Err(_) =>
        if cursor.predecessor.Some? && cursor.predecessor.value.Hex64? {
          var digest := cursor.predecessor.value.digest;
          if digest in history.records && env.parse(history.records[digest]).Some? {
            var record := env.parse(history.records[digest]).value;
            if RecordError(env, record, identity, repository).Some? {
              RecordErrorBlames(env, record, identity, repository);
            }
          }
        }
      case Ok(record) =>
        var digest := cursor.predecessor.value.digest;
        WalkBlamesHistory(env, history, record, continuity, seen + {digest}, identity, repository);
    }
  }
}
