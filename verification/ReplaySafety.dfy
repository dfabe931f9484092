/** What every step of the reservation protocol keeps, and what follows for whole runs. */
module ReplaySafety {
  import opened Common
  import opened PostImage
  import opened ReplayRecord
  import opened ReplayProtocol

  /** The call owns the claim marker of its key: it created it and has not yet tried to remove it. */
  predicate Claiming(call: Call) {
    match call.phase
    case ClaimCreated => true
    case Claimed => true
    case Renaming => true
    case Reading(purpose) => purpose.UnderClaim?
    case Quarantining(purpose) => purpose.UnderClaim?
    case Dropping(_) => true
    case _ => false
  }

  /** The call is past its own publication. */
  predicate Owning(phase: Phase) {
    match phase
    case Dropping(outcome) => outcome.FirstExecution?
    case Executing => true
    case Saving(_, _) => true
    case Reading(purpose) => purpose.ForUpdate?
    case Quarantining(purpose) => purpose.ForUpdate?
    case _ => false
  }

  /** The record a call has loaded and still carries. */
  function Held(phase: Phase): Option<Record> {
    match phase
    case Dropping(outcome) => if outcome.Replay? then Some(outcome.record) else None
    case Returned(outcome) => if outcome.Replay? then Some(outcome.record) else None
    case Verifying(record, _) => Some(record)
    case Answered(_, record, _) => Some(record)
    case _ => None
  }

  function Failure(phase: Phase): Option<Error> {
    match phase
    case Dropping(outcome) => if outcome.Refused? then Some(outcome.error) else None
    case Returned(outcome) => if outcome.Refused? then Some(outcome.error) else None
    case _ => None
  }

  predicate Descends(origin: Record, record: Record) {
    WellFormed(record) && SameIdentity(origin, record)
  }

  /** A published directory nobody tampered with has a complete record, with the identity it was published with. */
  predicate Intact(store: Store, key: KeyHash) {
    && key in store.dirs && key in store.origin
    && store.dirs[key].Some? && store.dirs[key].value.Json?
    && store.origin[key].keyHash == key
    && Descends(store.origin[key], store.dirs[key].value.record)
  }

  predicate StoreInv(store: Store) {
    && store.origin.Keys == store.dirs.Keys
    && store.tampered <= store.dirs.Keys
    && forall key :: key in store.dirs && key !in store.tampered ==> Intact(store, key)
  }

  /** Facts about a call on a key that was not tampered with. */
  predicate CleanCallInv(store: Store, call: Call) {
    && !call.phase.Quarantining?
    && (call.phase.Saving? ==>
      && call.key in store.dirs && store.dirs[call.key] == Some(Json(call.phase.base))
      && WellFormed(call.phase.next) && SameIdentity(call.phase.base, call.phase.next)
      && ValidTransition(call.phase.base.status, call.phase.next.status))
    && (Held(call.phase).Some? ==>
      var record := Held(call.phase).value;
      && call.key in store.dirs && call.key in store.origin
      && Descends(store.origin[call.key], record) && record.requestHash == call.request
      && (Terminal(record.status) ==> store.dirs[call.key] == Some(Json(record))))
    && (Failure(call.phase).Some? ==>
      var error := Failure(call.phase).value;
      && !error.IncompleteReservation? && !error.CorruptRecordQuarantined? && !error.CorruptRecord?
      && (error.Conflict? ==> call.key in store.origin && store.origin[call.key].requestHash != call.request))
  }

  /** The receipt is bound to the caller's source, and the targets read so far matched the disk at the moment each was
      read. */
  predicate Witnessed(call: Call, record: Record, checked: seq<Disk>) {
    && call.lane.Verified? && call.lane.source.Some? && record.postImage.Some?
    && BoundTo(record.postImage.value, call.lane.source.value)
    && |checked| <= |record.postImage.value.targets|
    && forall i :: 0 <= i < |checked| ==>
      var receipt := record.postImage.value;
      TargetVerifies(Anchors(receipt, call.lane.source.value), receipt.targets[i], checked[i])
  }

  predicate VerificationInv(call: Call) {
    match call.phase
    case Verifying(record, checked) => Witnessed(call, record, checked)
    case Answered(reply, record, checked) =>
      || (call.lane.Plain? && reply == ReplayResponse(record))
      || (call.lane.Verified? && reply == ReplayUnavailable)
      || (reply == ReplayResponse(record) && record.status == Completed &&
          Witnessed(call, record, checked) && |checked| == |record.postImage.value.targets|)
    case _ => true
  }

  predicate CallInv(store: Store, call: Call) {
    && (Claiming(call) ==> call.key in store.claims)
    && (call.phase.Renaming? ==> call.key !in store.dirs)
    && (call.phase.Reading? ==> call.key in store.dirs)
    && (call.published ==> call.key in store.dirs && call.key in store.origin)
    && (call.published ==> store.origin[call.key].requestHash == call.request)
    && (Owning(call.phase) || call.executesFirst ==> call.published)
    && VerificationInv(call)
    && (call.key !in store.tampered ==> CleanCallInv(store, call))
  }

  predicate Exclusive(a: Call, b: Call) {
    && (Claiming(a) && Claiming(b) ==> a.key != b.key)
    && (a.published && b.published ==> a.key != b.key)
  }

  predicate Inv(s: State) {
    && StoreInv(s.store)
    && (forall id :: id in s.calls ==> CallInv(s.store, s.calls[id]))
    && (forall i, j :: i in s.calls && j in s.calls && i != j ==> Exclusive(s.calls[i], s.calls[j]))
  }

  /** A record file only changes along the life cycle, unless its key is tampered with. */
  predicate RecordAdvances(before: Store, after: Store) {
    && before.dirs.Keys <= after.dirs.Keys
    && before.tampered <= after.tampered
    && (forall key :: key in before.origin && key in before.dirs ==>
      key in after.origin && after.origin[key] == before.origin[key])
    && forall key :: key in before.dirs && key !in after.tampered ==>
      || after.dirs[key] == before.dirs[key]
      || (Intact(before, key) && Intact(after, key) &&
          ValidTransition(before.dirs[key].value.record.status, after.dirs[key].value.record.status))
  }

  /** What one step of `call` may do to the shared state and to its own standing, as far as other calls can see. */
  predicate Effect(before: Store, after: Store, call: Call, next: Call) {
    && next.key == call.key && next.request == call.request
    && after.tampered == before.tampered
    && before.dirs.Keys <= after.dirs.Keys <= before.dirs.Keys + {call.key}
    && before.origin.Keys <= after.origin.Keys
    && (forall key :: key in before.origin ==> after.origin[key] == before.origin[key])
    && (forall key :: key in before.dirs && key != call.key ==> after.dirs[key] == before.dirs[key])
    && before.claims - {call.key} <= after.claims <= before.claims + {call.key}
    && (call.key in before.claims && call.key !in after.claims ==> Claiming(call) && !Claiming(next))
    && (Claiming(next) ==> Claiming(call) || call.key !in before.claims)
    && (call.key in after.dirs && call.key !in before.dirs ==> Claiming(call) && Intact(after, call.key))
    && (next.published ==> call.published || call.key !in before.dirs)
    && (call.key in before.dirs && call.key !in before.tampered && after.dirs[call.key] != before.dirs[call.key] ==>
      && call.published && Intact(before, call.key) && Intact(after, call.key)
      && ValidTransition(before.dirs[call.key].value.record.status, after.dirs[call.key].value.record.status))
  }

  /** A step that leaves the store alone, gains no marker and publishes nothing. */
  predicate Quiet(call: Call, next: Call) {
    && next == call.(phase := next.phase)
    && (Claiming(next) ==> Claiming(call))
  }

  lemma QuietEffect(store: Store, call: Call, next: Call)
    requires StoreInv(store) && Quiet(call, next)
    ensures Effect(store, store, call, next)
  {
  }

  lemma FinishKeeps(store: Store, call: Call, purpose: Purpose, outcome: Outcome)
    requires CallInv(store, call) && (call.phase == Reading(purpose) || call.phase == Quarantining(purpose))
    requires outcome.Refused?
    requires call.key !in store.tampered ==> CleanCallInv(store, call.(phase := Returned(outcome)))
    ensures Quiet(call, Finish(call, purpose, outcome))
    ensures CallInv(store, Finish(call, purpose, outcome))
  {
  }

  lemma LoadedKeeps(store: Store, call: Call, purpose: Purpose, record: Record)
    requires StoreInv(store) && CallInv(store, call) && call.phase == Reading(purpose)
    requires store.dirs[call.key] == Some(Json(record)) && Loadable(Json(record), call.key)
    ensures Quiet(call, Loaded(call, purpose, record))
    ensures CallInv(store, Loaded(call, purpose, record))
  {
    assert call.key !in store.tampered ==> Intact(store, call.key);
    if record.requestHash != call.request {
      FinishKeeps(store, call, purpose, Refused(Conflict));
    } else if purpose.ForUpdate? {
      if call.key !in store.tampered && Admissible(purpose.op) && Updated(record, purpose.op, purpose.now).Some? {
        UpdateFollowsLifeCycle(record, purpose.op, purpose.now);
      }
    }
  }

  /** Only on a key that was tampered with is a record found that cannot be loaded. */
  lemma CorruptKeeps(store: Store, call: Call, purpose: Purpose)
    requires CallInv(store, call) && call.phase == Reading(purpose) && call.key in store.tampered
    ensures Quiet(call, call.(phase := Quarantining(purpose)))
    ensures CallInv(store, call.(phase := Quarantining(purpose)))
  {
  }

  lemma UnreadableIsTampered(store: Store, key: KeyHash)
    requires StoreInv(store) && key in store.dirs
    requires store.dirs[key].None? || !Loadable(store.dirs[key].value, key)
    ensures key in store.tampered
  {
    assert key !in store.tampered ==> Intact(store, key);
  }

  lemma ReadEffect(store: Store, call: Call, purpose: Purpose, choice: Choice)
    requires StoreInv(store) && CallInv(store, call) && call.phase == Reading(purpose)
    ensures Quiet(call, Read(store, call, purpose, choice))
    ensures CallInv(store, Read(store, call, purpose, choice))
  {
    if choice.IoFails? {
      FinishKeeps(store, call, purpose, Refused(Io));
    } else if store.dirs[call.key].None? {
      UnreadableIsTampered(store, call.key);
      FinishKeeps(store, call, purpose, Refused(IncompleteReservation));
    } else if Loadable(store.dirs[call.key].value, call.key) {
      LoadedKeeps(store, call, purpose, store.dirs[call.key].value.record);
    } else {
      UnreadableIsTampered(store, call.key);
      CorruptKeeps(store, call, purpose);
    }
  }

  lemma QuarantineEffect(store: Store, call: Call, purpose: Purpose, choice: Choice)
    requires StoreInv(store) && CallInv(store, call) && call.phase == Quarantining(purpose)
    ensures var (after, next) := Quarantine(store, call, purpose, choice);
      Effect(store, after, call, next) && CallInv(after, next)
  {
    assert call.key in store.tampered;
    var (after, next) := Quarantine(store, call, purpose, choice);
    assert next.phase in {Dropping(Refused(CorruptRecord)), Dropping(Refused(CorruptRecordQuarantined)), Executing,
                          Returned(Refused(CorruptRecord)), Returned(Refused(CorruptRecordQuarantined))};
    assert Quiet(call, next) && (Owning(next.phase) ==> Owning(call.phase));
    TamperedEffect(store, after, call, next);
  }

  /** On a key that was tampered with, a record file may go and little needs to be kept. */
  lemma TamperedEffect(store: Store, after: Store, call: Call, next: Call)
    requires StoreInv(store) && CallInv(store, call) && call.key in store.tampered && Quiet(call, next)
    requires after == store.(dirs := after.dirs, quarantine := after.quarantine)
    requires after.dirs.Keys == store.dirs.Keys
    requires forall key :: key in store.dirs && key != call.key ==> after.dirs[key] == store.dirs[key]
    requires !next.phase.Renaming? && !next.phase.Reading? && !next.phase.Verifying? && !next.phase.Answered?
    requires Owning(next.phase) ==> Owning(call.phase)
    ensures Effect(store, after, call, next) && CallInv(after, next)
  {
  }

  lemma PublishEffect(store: Store, call: Call, choice: Choice)
    requires StoreInv(store) && CallInv(store, call) && call.phase.Renaming?
    ensures var (after, next) := Publish(store, call, choice); Effect(store, after, call, next) && CallInv(after, next)
  {
  }

  lemma VerifyEffect(store: Store, call: Call, choice: Choice)
    requires CallInv(store, call) && call.phase.Verifying?
    ensures var next := VerifyNext(store, call, call.phase.record, call.phase.checked, choice);
      Quiet(call, next) && CallInv(store, next)
  {
    var record, checked := call.phase.record, call.phase.checked;
    var next := VerifyNext(store, call, record, checked, choice);
    assert Held(next.phase) == Held(call.phase);
    assert VerificationInv(next);
  }

  lemma AnswerEffect(store: Store, call: Call, record: Record)
    requires CallInv(store, call) && call.phase == Returned(Replay(record))
    ensures Quiet(call, Answer(store, call, record)) && CallInv(store, Answer(store, call, record))
  {
    if call.lane.Verified? && call.lane.source.Some? && record.postImage.Some? {
      HeaderVerifiesExactly(record.postImage.value, call.lane.source.value, store.disk);
    }
    assert VerificationInv(Answer(store, call, record));
  }

  lemma ClaimEffect(store: Store, call: Call, choice: Choice)
    requires StoreInv(store) && CallInv(store, call) && call.phase.Staged?
    ensures var (after, next) := Claim(store, call, choice); Effect(store, after, call, next) && CallInv(after, next)
  {
  }

  /** The remaining phases only look at the store. */
  lemma LocalEffect(store: Store, call: Call, choice: Choice)
    requires CallInv(store, call)
    requires call.phase in {Entering, ProbeEntering, Staging, ClaimCreated, Claimed, Waiting, Executing}
    ensures var (after, next) := ActOn(store, call, choice); after == store && Quiet(call, next) && CallInv(after, next)
  {
  }

  lemma SaveEffect(store: Store, call: Call, choice: Choice)
    requires StoreInv(store) && CallInv(store, call) && call.phase.Saving?
    ensures var (after, next) := Save(store, call, call.phase.next, choice);
      Effect(store, after, call, next) && CallInv(after, next)
  {
    if call.key !in store.tampered {
      assert Intact(store, call.key);
    }
  }

  lemma DropEffect(store: Store, call: Call, choice: Choice)
    requires StoreInv(store) && CallInv(store, call) && call.phase.Dropping?
    ensures var (after, next) := Drop(store, call, call.phase.outcome, choice);
      Effect(store, after, call, next) && CallInv(after, next)
  {
    var (after, next) := Drop(store, call, call.phase.outcome, choice);
    DropKeepsCall(store, after, call, next, call.phase.outcome);
  }

  lemma DropKeepsCall(store: Store, after: Store, call: Call, next: Call, outcome: Outcome)
    requires CallInv(store, call) && call.phase == Dropping(outcome)
    requires after.dirs == store.dirs && after.origin == store.origin && after.tampered == store.tampered
    requires next == if outcome.FirstExecution? then call.(phase := Executing, executesFirst := true)
      else call.(phase := Returned(outcome))
    ensures CallInv(after, next)
  {
    assert Held(next.phase) == Held(call.phase) && Failure(next.phase) == Failure(call.phase);
  }

  /** A step with a lawful effect, after which the call is sound. */
  predicate Lawful(store: Store, call: Call, result: (Store, Call)) {
    Effect(store, result.0, call, result.1) && CallInv(result.0, result.1)
  }

  /** The phases that change the shared files. */
  predicate Writes(phase: Phase) {
    phase.Quarantining? || phase.Renaming? || phase.Saving? || phase.Dropping? || phase.Staged?
  }

  lemma RecordActEffect(store: Store, call: Call, choice: Choice)
    requires StoreInv(store) && CallInv(store, call)
    requires call.phase.Quarantining? || call.phase.Renaming? || call.phase.Saving?
    ensures Lawful(store, call, ActOn(store, call, choice))
  {
    match call.phase
    case Quarantining(purpose) => QuarantineEffect(store, call, purpose, choice);
    case Renaming => PublishEffect(store, call, choice);
    case Saving(_, _) => SaveEffect(store, call, choice);
  }

  lemma MarkerActEffect(store: Store, call: Call, choice: Choice)
    requires StoreInv(store) && CallInv(store, call) && (call.phase.Dropping? || call.phase.Staged?)
    ensures Lawful(store, call, ActOn(store, call, choice))
  {
    if call.phase.Dropping? {
      DropEffect(store, call, choice);
    } else {
      ClaimEffect(store, call, choice);
    }
  }

  lemma ActEffect(store: Store, call: Call, choice: Choice)
    requires StoreInv(store) && CallInv(store, call)
    ensures Lawful(store, call, ActOn(store, call, choice))
  {
    if call.phase.Quarantining? || call.phase.Renaming? || call.phase.Saving? {
      RecordActEffect(store, call, choice);
    } else if call.phase.Dropping? || call.phase.Staged? {
      MarkerActEffect(store, call, choice);
    } else {
      QuietActEffect(store, call, choice);
      QuietEffect(store, call, ActOn(store, call, choice).1);
    }
  }

  lemma QuietActEffect(store: Store, call: Call, choice: Choice)
    requires StoreInv(store) && CallInv(store, call)
    requires !Writes(call.phase)
    ensures var (after, next) := ActOn(store, call, choice); after == store && Quiet(call, next) && CallInv(after, next)
  {
    match call.phase
    case Reading(purpose) => ReadEffect(store, call, purpose, choice);
    case Verifying(_, _) => VerifyEffect(store, call, choice);
    case Returned(outcome) =>
      if outcome.Replay? { AnswerEffect(store, call, outcome.record); }
    case Answered(_, _, _) =>
    case Crashed =>
    case _ => LocalEffect(store, call, choice);
  }

  lemma ReadFrame(store: Store, call: Call, purpose: Purpose, choice: Choice)
    ensures var next := Read(store, call, purpose, choice); next == call.(phase := next.phase)
  {
  }

  /** The same call, moved on. */
  predicate SameCall(call: Call, next: Call) {
    && next.key == call.key && next.request == call.request && next.now == call.now && next.lane == call.lane
    && (call.published ==> next.published)
  }

  lemma WriteFrame(store: Store, call: Call, choice: Choice)
    requires Writes(call.phase)
    ensures var (after, next) := ActOn(store, call, choice); after.tampered == store.tampered && SameCall(call, next)
  {
  }

  lemma AnswerFrame(store: Store, call: Call, choice: Choice)
    requires call.phase.Returned? || call.phase.Verifying?
    ensures var (after, next) := ActOn(store, call, choice); after == store && SameCall(call, next)
  {
  }

  lemma WaitFrame(store: Store, call: Call, choice: Choice)
    requires !Writes(call.phase) && !call.phase.Reading? && !call.phase.Returned? && !call.phase.Verifying?
    ensures var (after, next) := ActOn(store, call, choice); after == store && SameCall(call, next)
  {
  }

  /** A step keeps the call's key and standing, and which keys were tampered with. */
  lemma ActFrame(store: Store, call: Call, choice: Choice)
    ensures ActOn(store, call, choice).0.tampered == store.tampered && SameCall(call, ActOn(store, call, choice).1)
  {
    if Writes(call.phase) {
      WriteFrame(store, call, choice);
    } else if call.phase.Reading? {
      ReadFrame(store, call, call.phase.purpose, choice);
    } else if call.phase.Returned? || call.phase.Verifying? {
      AnswerFrame(store, call, choice);
    } else {
      WaitFrame(store, call, choice);
    }
  }

  lemma EffectKeepsStore(before: Store, after: Store, call: Call, next: Call)
    requires StoreInv(before) && Effect(before, after, call, next)
    requires after.origin.Keys == after.dirs.Keys
    ensures StoreInv(after)
    ensures RecordAdvances(before, after)
  {
    forall key | key in after.dirs && key !in after.tampered
      ensures Intact(after, key)
    {
      if key in before.dirs {
        assert Intact(before, key);
      }
    }
  }

  /** A step of one call leaves the facts about every other call in place. */
  lemma EffectKeepsOtherCall(before: Store, after: Store, call: Call, next: Call, other: Call)
    requires StoreInv(before) && StoreInv(after) && Effect(before, after, call, next)
    requires CallInv(before, call) && CallInv(before, other) && Exclusive(call, other)
    ensures CallInv(after, other)
    ensures Exclusive(next, other)
  {
  }

  lemma EffectKeepsInv(s: State, id: CallId, after: Store, next: Call)
    requires Inv(s) && id in s.calls && Effect(s.store, after, s.calls[id], next) && CallInv(after, next)
    requires after.origin.Keys == after.dirs.Keys
    ensures Inv(State(after, s.calls[id := next])) && RecordAdvances(s.store, after)
  {
    var call := s.calls[id];
    EffectKeepsStore(s.store, after, call, next);
    forall other | other in s.calls && other != id
      ensures CallInv(after, s.calls[other]) && Exclusive(next, s.calls[other]) && Exclusive(s.calls[other], next)
    {
      assert Exclusive(call, s.calls[other]) && CallInv(s.store, s.calls[other]);
      EffectKeepsOtherCall(s.store, after, call, next, s.calls[other]);
    }
  }

  /** Directories and their origins come together. */
  lemma ActKeepsOrigins(store: Store, call: Call, choice: Choice)
    requires StoreInv(store) && CallInv(store, call)
    ensures var after := ActOn(store, call, choice).0; after.origin.Keys == after.dirs.Keys
  {
  }

  lemma ActKeepsInv(s: State, id: CallId, choice: Choice)
    requires Inv(s) && id in s.calls
    ensures Inv(Step(s, Act(id, choice)))
    ensures RecordAdvances(s.store, Step(s, Act(id, choice)).store)
  {
    var (after, next) := ActOn(s.store, s.calls[id], choice);
    assert CallInv(s.store, s.calls[id]);
    ActEffect(s.store, s.calls[id], choice);
    ActKeepsOrigins(s.store, s.calls[id], choice);
    EffectKeepsInv(s, id, after, next);
  }

  /** Outside tampering weakens what is known about one key and nothing else. */
  lemma TamperKeepsInv(s: State, key: KeyHash, file: Option<RecordFile>)
    requires Inv(s) && key in s.store.dirs
    ensures Inv(Step(s, Tamper(key, file)))
    ensures RecordAdvances(s.store, Step(s, Tamper(key, file)).store)
  {
    var t := Step(s, Tamper(key, file));
    forall k | k in t.store.dirs && k !in t.store.tampered
      ensures Intact(t.store, k)
    {
      assert Intact(s.store, k);
    }
    forall id | id in s.calls
      ensures CallInv(t.store, s.calls[id])
    {
      assert CallInv(s.store, s.calls[id]);
    }
  }

  lemma DiskWriteKeepsInv(s: State, disk: Disk)
    requires Inv(s)
    ensures Inv(Step(s, WriteDisk(disk)))
    ensures RecordAdvances(s.store, Step(s, WriteDisk(disk)).store)
  {
    var t := Step(s, WriteDisk(disk));
    forall k | k in t.store.dirs && k !in t.store.tampered
      ensures Intact(t.store, k)
    {
      assert Intact(s.store, k);
    }
    forall id | id in s.calls
      ensures CallInv(t.store, s.calls[id])
    {
      assert CallInv(s.store, s.calls[id]);
    }
  }

  /** A call that has not begun, or one that crashed, satisfies every fact trivially. */
  lemma CallEventKeepsInv(s: State, event: Event)
    requires Inv(s) && (event.Begin? || event.Probe? || event.Crash?)
    ensures Inv(Step(s, event)) && Step(s, event).store == s.store
  {
    var t := Step(s, event);
    if t != s {
      IdleCallKeepsInv(s, event.id, t.calls[event.id]);
    }
  }

  lemma IdleCallKeepsInv(s: State, id: CallId, next: Call)
    requires Inv(s) && next.phase in {Entering, ProbeEntering, Crashed}
    requires if id in s.calls then next == s.calls[id].(phase := Crashed) else !next.published && !next.executesFirst
    ensures Inv(State(s.store, s.calls[id := next]))
  {
    if id in s.calls {
      assert CallInv(s.store, s.calls[id]);
    }
    assert CallInv(s.store, next);
    forall other | other in s.calls && other != id
      ensures Exclusive(next, s.calls[other]) && Exclusive(s.calls[other], next)
    {
      assert id in s.calls ==> Exclusive(s.calls[id], s.calls[other]);
    }
  }

  lemma StepKeepsInv(s: State, event: Event)
    requires Inv(s)
    ensures Inv(Step(s, event))
    ensures RecordAdvances(s.store, Step(s, event).store)
  {
    match event
    case Act(id, choice) =>
      if id in s.calls { ActKeepsInv(s, id, choice); }
    case Tamper(key, file) =>
      if key in s.store.dirs { TamperKeepsInv(s, key, file); }
    case WriteDisk(disk) => DiskWriteKeepsInv(s, disk);
    case _ => CallEventKeepsInv(s, event);
  }

  lemma {:induction false} RunKeepsInv(s: State, events: seq<Event>)
    requires Inv(s)
    ensures Inv(Run(s, events))
    decreases |events|
  {
    if events != [] {
      RunKeepsInv(s, events[..|events| - 1]);
      StepKeepsInv(Run(s, events[..|events| - 1]), events[|events| - 1]);
    }
  }
}
