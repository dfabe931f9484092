/** The reservation protocol of the replay store as a state machine.

    Any number of calls share the records directory. Each atomic file-system action of a call is one step; between two
    steps anything else may happen: other calls, crashes, writes to the working tree, and outside tampering with a
    published record file. A directory that was published and a claim marker are never removed from outside. */
module ReplayProtocol {
  import opened Common
  import opened PostImage
  import opened ReplayRecord

  /** The contents of a `record.json`: a record in JSON, or bytes that do not parse as one. */
  datatype RecordFile = Json(record: Record) | Unparsable(bytes: seq<byte>)

  datatype Error = Conflict | IncompleteReservation | Publishing | CorruptRecordQuarantined | CorruptRecord | Io

  datatype Outcome = FirstExecution(record: Record) | Replay(record: Record) | NoRecord | Refused(error: Error)

  /** Which read of the record file this is; the continuation depends on it. */
  datatype Purpose = AtEntry | UnderClaim | AfterWait | AtProbe | ForUpdate(op: Operation, now: nat)

  datatype Phase =
    | Entering
    | ProbeEntering
    | Staging
    | Staged
    | ClaimCreated
    | Claimed
    | Renaming
    | Waiting
    | Reading(purpose: Purpose)
    | Quarantining(purpose: Purpose)
    | Dropping(outcome: Outcome)
    | Returned(outcome: Outcome)
    | Executing
    | Saving(base: Record, next: Record)
    | Verifying(record: Record, checked: seq<Disk>)
    | Answered(reply: Reply, record: Record, checked: seq<Disk>)
    | Crashed

  /** The plain entry points answer from the record; the verified ones only against a receipt, with or without an
      admitted source to read it through. */
  datatype Lane = Plain | Verified(source: Option<Authority>)

  /** One call. `published` records that its rename succeeded, `executesFirst` that it returned FirstExecution. */
  datatype Call = Call(
    key: KeyHash, request: RequestHash, now: nat, lane: Lane, phase: Phase, published: bool, executesFirst: bool)

  /** Shared state. A key directory maps to its record file, if it has one. `origin` and `tampered` are history: the
      record each directory was published with, and the keys whose record file was changed from outside. */
  datatype Store = Store(
    dirs: map<KeyHash, Option<RecordFile>>, claims: set<KeyHash>, quarantine: seq<RecordFile>, disk: Disk,
    origin: map<KeyHash, Record>, tampered: set<KeyHash>)

  type CallId = nat

  datatype State = State(store: Store, calls: map<CallId, Call>)

  /** How the environment resolves a step. */
  datatype Choice = Proceed | IoFails | GiveUp | Update(op: Operation, now: nat)

  datatype Event =
    | Begin(id: CallId, key: KeyHash, request: RequestHash, now: nat, lane: Lane)
    | Probe(id: CallId, key: KeyHash, request: RequestHash, lane: Lane)
    | Act(id: CallId, choice: Choice)
    | Crash(id: CallId)
    | Tamper(key: KeyHash, file: Option<RecordFile>)
    | WriteDisk(disk: Disk)

  function Initial(disk: Disk): State {
    State(Store(map[], {}, [], disk, map[], {}), map[])
  }

  predicate Loadable(file: RecordFile, key: KeyHash) {
    file.Json? && file.record.schemaVersion == REPLAY_RECORD_SCHEMA_VERSION && file.record.keyHash == key
  }

  /** The call after `load_existing` or a status update has an answer. */
  function Finish(call: Call, purpose: Purpose, outcome: Outcome): Call {
    call.(phase := match purpose
                   case UnderClaim => Dropping(outcome)
                   case ForUpdate(_, _) => Executing
                   case _ => Returned(outcome))
  }

  /** The record was loaded: check the request hash, then replay it or compute the update. */
  function Loaded(call: Call, purpose: Purpose, record: Record): Call {
    if record.requestHash != call.request then Finish(call, purpose, Refused(Conflict))
    else match purpose
      case ForUpdate(op, now) =>
        if Admissible(op) && Updated(record, op, now).Some?
        then call.(phase := Saving(record, Updated(record, op, now).value))
        else call.(phase := Executing)
      case _ => Finish(call, purpose, Replay(record))
  }

  function Read(store: Store, call: Call, purpose: Purpose, choice: Choice): Call {
    if choice.IoFails? then Finish(call, purpose, Refused(Io))
    else if call.key !in store.dirs || store.dirs[call.key].None? then
      Finish(call, purpose, Refused(IncompleteReservation))
    else if Loadable(store.dirs[call.key].value, call.key) then Loaded(call, purpose, store.dirs[call.key].value.record)
    else call.(phase := Quarantining(purpose))
  }

  /** Move the record file away. The key directory itself stays. */
  function Quarantine(store: Store, call: Call, purpose: Purpose, choice: Choice): (Store, Call) {
    if choice.IoFails? || call.key !in store.dirs || store.dirs[call.key].None? then
      (store, Finish(call, purpose, Refused(CorruptRecord)))
    else
      (store.(dirs := store.dirs[call.key := None], quarantine := store.quarantine + [store.dirs[call.key].value]),
       Finish(call, purpose, Refused(CorruptRecordQuarantined)))
  }

  /** Rename the staged directory onto the key directory. The rename also succeeds onto an existing directory that has
      no record file left, as it does on Unix. */
  function Publish(store: Store, call: Call, choice: Choice): (Store, Call) {
    if !choice.IoFails? && (call.key in store.dirs ==> store.dirs[call.key].None?) then
      var record := ReservedRecord(call.key, call.request, call.now);
      (store.(dirs := store.dirs[call.key := Some(Json(record))], origin := store.origin[call.key := record]),
       call.(phase := Dropping(FirstExecution(record)), published := true))
    else if call.key in store.dirs then (store, call.(phase := Reading(UnderClaim)))
    else (store, call.(phase := Dropping(Refused(Io))))
  }

  /** Begin to answer a replayed record: at once in the plain lane, after the receipt's header checks otherwise. */
  function Answer(store: Store, call: Call, record: Record): Call {
    match call.lane
    case Plain => call.(phase := Answered(ReplayResponse(record), record, []))
    case Verified(source) =>
      if source.Some? && record.postImage.Some? && HeaderVerifies(record.postImage.value, source.value, store.disk)
      then call.(phase := Verifying(record, []))
      else call.(phase := Answered(ReplayUnavailable, record, []))
  }

  /** Read the next receipt target from the disk as it is now; answer once every target has been read. An authority may
      also refuse the read, as it does when its lease was revoked or its project is stopping. */
  function VerifyNext(store: Store, call: Call, record: Record, checked: seq<Disk>, choice: Choice): Call {
    if call.lane.Plain? || call.lane.source.None? || record.postImage.None? then
      call.(phase := Answered(ReplayUnavailable, record, checked))
    else
      var receipt := record.postImage.value;
      if |checked| >= |receipt.targets| then
        var reply := if record.status == Completed then ReplayResponse(record) else ReplayUnavailable;
        call.(phase := Answered(reply, record, checked))
      else if choice.IoFails? then call.(phase := Answered(ReplayUnavailable, record, checked))
      else if TargetVerifies(Anchors(receipt, call.lane.source.value), receipt.targets[|checked|], store.disk) then
        call.(phase := Verifying(record, checked + [store.disk]))
      else call.(phase := Answered(ReplayUnavailable, record, checked))
  }

  /** Create the claim marker, unless there is one. */
  function Claim(store: Store, call: Call, choice: Choice): (Store, Call) {
    if choice.IoFails? then (store, call.(phase := Returned(Refused(Io))))
    else if call.key in store.claims then (store, call.(phase := Waiting))
    else (store.(claims := store.claims + {call.key}), call.(phase := ClaimCreated))
  }

  /** Remove the claim marker. One that cannot be removed stays behind; the outcome is returned all the same. */
  function Drop(store: Store, call: Call, outcome: Outcome, choice: Choice): (Store, Call) {
    (if choice.IoFails? then store else store.(claims := store.claims - {call.key}),
     if outcome.FirstExecution? then call.(phase := Executing, executesFirst := true)
     else call.(phase := Returned(outcome)))
  }

  /** Write the updated record over the old one. */
  function Save(store: Store, call: Call, record: Record, choice: Choice): (Store, Call) {
    (if choice.IoFails? then store else store.(dirs := store.dirs[call.key := Some(Json(record))]),
     call.(phase := Executing))
  }

  /** One atomic action of one call. */
  function ActOn(store: Store, call: Call, choice: Choice): (Store, Call) {
    match call.phase
    case Entering => (store, call.(phase := if call.key in store.dirs then Reading(AtEntry) else Staging))
    case ProbeEntering =>
      (store, call.(phase := if call.key in store.dirs then Reading(AtProbe)
                             else if call.key in store.claims then Returned(Refused(Publishing))
                             else Returned(NoRecord)))
    case Staging => (store, call.(phase := if choice.IoFails? then Returned(Refused(Io)) else Staged))
    case Staged => Claim(store, call, choice)
    case ClaimCreated =>
      // A failed write of the marker's contents returns an error and leaves the marker behind.
      (store, call.(phase := if choice.IoFails? then Returned(Refused(Io)) else Claimed))
    case Claimed => (store, call.(phase := if call.key in store.dirs then Reading(UnderClaim) else Renaming))
    case Renaming => Publish(store, call, choice)
    case Waiting =>
      (store, call.(phase := if call.key in store.dirs then Reading(AfterWait)
                             else if call.key !in store.claims || choice.GiveUp? then Returned(Refused(Publishing))
                             else Waiting))
    case Reading(purpose) => (store, Read(store, call, purpose, choice))
    case Quarantining(purpose) => Quarantine(store, call, purpose, choice)
    case Dropping(outcome) => Drop(store, call, outcome, choice)
    case Executing =>
      (store, if !choice.Update? || !Admissible(choice.op) then call
              else call.(phase := Reading(ForUpdate(choice.op, choice.now))))
    case Saving(_, next) => Save(store, call, next, choice)
    case Returned(outcome) => (store, if outcome.Replay? then Answer(store, call, outcome.record) else call)
    case Verifying(record, checked) => (store, VerifyNext(store, call, record, checked, choice))
    case Answered(_, _, _) => (store, call)
    case Crashed => (store, call)
  }

  /** One event; an event that does not apply changes nothing. */
  function Step(s: State, event: Event): State {
    match event
    case Begin(id, key, request, now, lane) =>
      if id in s.calls then s else s.(calls := s.calls[id := Call(key, request, now, lane, Entering, false, false)])
    case Probe(id, key, request, lane) =>
      if id in s.calls then s else s.(calls := s.calls[id := Call(key, request, 0, lane, ProbeEntering, false, false)])
    case Act(id, choice) =>
      if id !in s.calls then s
      else
        var (store, call) := ActOn(s.store, s.calls[id], choice);
        State(store, s.calls[id := call])
    case Crash(id) => if id !in s.calls then s else s.(calls := s.calls[id := s.calls[id].(phase := Crashed)])
    case Tamper(key, file) =>
      if key !in s.store.dirs then s
      else s.(store := s.store.(dirs := s.store.dirs[key := file], tampered := s.store.tampered + {key}))
    case WriteDisk(disk) => s.(store := s.store.(disk := disk))
  }

  function Run(s: State, events: seq<Event>): State
    decreases |events|
  {
    if events == [] then s else Step(Run(s, events[..|events| - 1]), events[|events| - 1])
  }
}
