/** The replay record, its life cycle and the answers a stored record may give. */
module ReplayRecord {
  import opened Common
  import opened PostImage

  type KeyHash = Digest

  type RequestHash = Digest

  datatype Status = Reserved | Started | Uncertain | Completed | Failed

  const REPLAY_RECORD_SCHEMA_VERSION := 1

  const MAX_REPLAY_RESPONSE_BYTES := 1024 * 1024

  /** Response bytes, with the verdict of the secret scanner on them. */
  datatype Response = Response(bytes: seq<byte>, scansClean: bool)

  datatype Record = Record(
    schemaVersion: nat, keyHash: KeyHash, requestHash: RequestHash, status: Status,
    created: nat, updated: nat, response: Option<Response>, postImage: Option<Receipt>)

  function ReservedRecord(key: KeyHash, request: RequestHash, now: nat): Record {
    Record(REPLAY_RECORD_SCHEMA_VERSION, key, request, Reserved, now, now, None, None)
  }

  predicate ValidResponse(response: Response) {
    |response.bytes| <= MAX_REPLAY_RESPONSE_BYTES && response.scansClean
  }

  /** The calls an `ActiveReplay` offers to the process that executes first. */
  datatype Operation =
    | MarkStarted
    | MarkUncertain
    | Complete(response: Response)
    | CompleteWithPostImage(response: Response, receipt: Option<Receipt>)
    | Fail(response: Response)

  /** The checks made before the stored record is loaded. */
  predicate Admissible(op: Operation) {
    match op
    case MarkStarted => true
    case MarkUncertain => true
    case Complete(response) => ValidResponse(response)
    case CompleteWithPostImage(response, receipt) =>
      receipt.Some? && receipt.value.targets != [] && ValidResponse(response)
    case Fail(response) => ValidResponse(response)
  }

  predicate ValidTransition(before: Status, after: Status) {
    || (before == Reserved && after in {Started, Completed, Failed})
    || (before == Started && after in {Completed, Uncertain})
  }

  function WithStatusAndResponse(record: Record, status: Status, response: Option<Response>, now: nat): Record {
    record.(status := status, updated := now, response := response)
  }

  function UpdateStatus(record: Record, status: Status, response: Option<Response>, now: nat): Option<Record> {
    if ValidTransition(record.status, status) then Some(WithStatusAndResponse(record, status, response, now)) else None
  }

  /** The record an admissible operation writes over `record`, or nothing when the transition is invalid. */
  function Updated(record: Record, op: Operation, now: nat): Option<Record>
    requires Admissible(op)
  {
    match op
    case MarkStarted => UpdateStatus(record, Started, None, now)
    case MarkUncertain => UpdateStatus(record, Uncertain, None, now)
    case Complete(response) => UpdateStatus(record, Completed, Some(response), now)
    case CompleteWithPostImage(response, receipt) =>
      if record.status in {Reserved, Started}
      then Some(WithStatusAndResponse(record, Completed, Some(response), now).(postImage := receipt))
      else None
    case Fail(response) => UpdateStatus(record, Failed, Some(response), now)
  }

  predicate Terminal(status: Status) {
    status in {Uncertain, Completed, Failed}
  }

  /** A receipt appears only on a completed record that has a response, and names at least one target; a reserved or
      started record has no response; stored responses passed validation. */
  predicate WellFormed(record: Record) {
    && record.schemaVersion == REPLAY_RECORD_SCHEMA_VERSION
    && (record.response.Some? <==> record.status in {Completed, Failed})
    && (record.response.Some? ==> ValidResponse(record.response.value))
    && (record.postImage.Some? ==> record.status == Completed && record.postImage.value.targets != [])
  }

  predicate SameIdentity(a: Record, b: Record) {
    a.keyHash == b.keyHash && a.requestHash == b.requestHash && a.created == b.created
  }

  /** Every write an operation makes moves along the life cycle, keeps the identity and keeps the record well formed. */
  lemma UpdateFollowsLifeCycle(record: Record, op: Operation, now: nat)
    requires WellFormed(record) && Admissible(op) && Updated(record, op, now).Some?
    ensures var updated := Updated(record, op, now).value;
      && ValidTransition(record.status, updated.status)
      && SameIdentity(record, updated)
      && WellFormed(updated)
      && (updated.postImage.Some? <==> op.CompleteWithPostImage?)
  {
  }

  /** The status a record must have for an operation to be accepted. */
  predicate Allowed(status: Status, op: Operation) {
    match op
    case MarkStarted => status == Reserved
    case MarkUncertain => status == Started
    case Complete(_) => status == Reserved || status == Started
    case CompleteWithPostImage(_, _) => status == Reserved || status == Started
    case Fail(_) => status == Reserved
  }

  /** `after` is `before` as the operation leaves it at the time `now`. */
  predicate Leaves(before: Record, op: Operation, now: nat, after: Record) {
    && after.schemaVersion == before.schemaVersion && after.keyHash == before.keyHash
    && after.requestHash == before.requestHash && after.created == before.created && after.updated == now
    && match op
      case MarkStarted => after.status == Started && after.response == None && after.postImage == before.postImage
      case MarkUncertain => after.status == Uncertain && after.response == None && after.postImage == before.postImage
      case Complete(response) =>
        after.status == Completed && after.response == Some(response) && after.postImage == before.postImage
      case CompleteWithPostImage(response, receipt) =>
        after.status == Completed && after.response == Some(response) && after.postImage == receipt
      case Fail(response) =>
        after.status == Failed && after.response == Some(response) && after.postImage == before.postImage
  }

  /** A response that may be stored: at most one MiB, and clean of secrets. */
  predicate Storable(response: Response) {
    |response.bytes| <= 1048576 && response.scansClean
  }

  /** The operations that get as far as the stored record. */
  predicate Accepted(op: Operation) {
    match op
    case MarkStarted => true
    case MarkUncertain => true
    case Complete(response) => Storable(response)
    case CompleteWithPostImage(response, receipt) =>
      Storable(response) && receipt.Some? && |receipt.value.targets| > 0
    case Fail(response) => Storable(response)
  }

  /** An accepted operation writes exactly what it stands for, and nothing exactly when the status does not allow it. */
  lemma UpdateWritesExactly(record: Record, op: Operation, now: nat)
    ensures Admissible(op) <==> Accepted(op)
    ensures Admissible(op) ==> (Updated(record, op, now).Some? <==> Allowed(record.status, op))
    ensures Admissible(op) && Updated(record, op, now).Some? ==> Leaves(record, op, now, Updated(record, op, now).value)
  {
  }

  /** What the caller of a repeated request is told. */
  datatype Reply =
    | Stored(response: Response)
    | PersistedResponseUnsafe
    | StillReserved
    | NeedsReconciliation
    | NoStoredResponse
    | ReplayUnavailable

  function ReplayResponse(record: Record): Reply {
    match (record.status, record.response)
    case (Completed, Some(response)) => if ValidResponse(response) then Stored(response) else PersistedResponseUnsafe
    case (Failed, Some(response)) => if ValidResponse(response) then Stored(response) else PersistedResponseUnsafe
    case (Reserved, _) => StillReserved
    case (Started, _) => NeedsReconciliation
    case (Uncertain, _) => NeedsReconciliation
    case (_, None) => NoStoredResponse
  }

  /** The reply the status and the response of a record stand for. */
  predicate Says(record: Record, reply: Reply) {
    match record.status
    case Reserved => reply == StillReserved
    case Started => reply == NeedsReconciliation
    case Uncertain => reply == NeedsReconciliation
    case _ =>
      match record.response
      case None => reply == NoStoredResponse
      case Some(response) =>
        reply == if Storable(response) then Stored(response) else PersistedResponseUnsafe
  }

  lemma ReplySays(record: Record)
    ensures Says(record, ReplayResponse(record))
  {
  }
}
