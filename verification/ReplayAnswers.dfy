/** What the operations of an executing call store, and what a repeated request is told, stated from the outside. */
module ReplayAnswers {
  import opened Common
  import opened PostImage
  import opened ReplayRecord
  import opened ReplayProtocol
  import opened ReplaySafety
  import opened ReplayTheorems
  import opened ReplayVerification

  // ---- Updates ------------------------------------------------------------

  /** The record of a key, as it is on disk. */
  predicate OnDisk(store: Store, key: KeyHash, record: Record) {
    key in store.dirs && store.dirs[key] == Some(Json(record))
  }

  /** `after` differs from `before` in the record of `key` at most. */
  predicate OtherwiseSame(before: Store, after: Store, key: KeyHash) {
    && after == before.(dirs := after.dirs) && after.dirs.Keys == before.dirs.Keys
    && forall other :: other in before.dirs && other != key ==> after.dirs[other] == before.dirs[other]
  }

  /** What an operation of the publisher of an untampered key does to the store: if it is accepted and the status of the
      record allows it, the record on disk becomes the one the operation leaves; otherwise nothing changes. */
  predicate Performs(before: Store, after: Store, key: KeyHash, record: Record, op: Operation, now: nat) {
    OnDisk(before, key, record)
    && if Accepted(op) && Allowed(record.status, op)
       then
         && OtherwiseSame(before, after, key)
         && key in after.dirs && after.dirs[key].Some? && after.dirs[key].value.Json?
         && Leaves(record, op, now, after.dirs[key].value.record)
         && after.dirs[key].value.record.postImage == (if op.CompleteWithPostImage? then op.receipt else None)
       else after == before
  }

  lemma OperationActs(store: Store, call: Call, record: Record, op: Operation, now: nat)
    requires call.phase == Executing && OnDisk(store, call.key, record) && Loadable(Json(record), call.key)
    requires record.requestHash == call.request
    ensures var (s1, c1) := ActOn(store, call, Update(op, now));
      var (s2, c2) := ActOn(s1, c1, Proceed);
      var (s3, c3) := ActOn(s2, c2, Proceed);
      && c3 == call
      && s3 == if Admissible(op) && Updated(record, op, now).Some?
               then store.(dirs := store.dirs[call.key := Some(Json(Updated(record, op, now).value))]) else store
  {
    var reading := call.(phase := Reading(ForUpdate(op, now)));
    if Admissible(op) {
      assert ActOn(store, call, Update(op, now)) == (store, reading);
      assert ActOn(store, reading, Proceed) == (store, Loaded(reading, ForUpdate(op, now), record));
    } else {
      assert ActOn(store, call, Update(op, now)) == (store, call);
    }
  }

  lemma ActsThree(s: State, id: CallId, a: Choice, b: Choice, c: Choice)
    requires id in s.calls
    ensures var (s1, c1) := ActOn(s.store, s.calls[id], a);
      var (s2, c2) := ActOn(s1, c1, b);
      var (s3, c3) := ActOn(s2, c2, c);
      Run(s, [Act(id, a), Act(id, b), Act(id, c)]) == State(s3, s.calls[id := c3])
  {
    var (s1, c1) := ActOn(s.store, s.calls[id], a);
    var (s2, c2) := ActOn(s1, c1, b);
    var (s3, c3) := ActOn(s2, c2, c);
    RunThree(s, Act(id, a), Act(id, b), Act(id, c));
    assert s.calls[id := s.calls[id]] == s.calls;
    StepActs(s, id, s.store, s.calls[id], a, s1, c1);
    StepActs(s, id, s1, c1, b, s2, c2);
    StepActs(s, id, s2, c2, c, s3, c3);
  }

  /** In every run, a call that executes on an untampered key performs its next operation exactly: started, uncertain,
      complete, complete with a receipt and fail each store their own status, response, receipt and time, and a refused
      one stores nothing. */
  lemma OperationStores(disk: Disk, events: seq<Event>, id: CallId, op: Operation, now: nat)
    requires var s := Run(Initial(disk), events);
      id in s.calls && s.calls[id].phase == Executing && s.calls[id].key !in s.store.tampered
    ensures var s := Run(Initial(disk), events);
      var t := Run(s, [Act(id, Update(op, now)), Act(id, Proceed), Act(id, Proceed)]);
      && t.calls == s.calls
      && exists record :: Performs(s.store, t.store, s.calls[id].key, record, op, now)
  {
    RunKeepsInv(Initial(disk), events);
    var s := Run(Initial(disk), events);
    var call := s.calls[id];
    assert CallInv(s.store, call) && Intact(s.store, call.key);
    var record := s.store.dirs[call.key].value.record;
    ActsThree(s, id, Update(op, now), Proceed, Proceed);
    OperationActs(s.store, call, record, op, now);
    assert s.calls[id := call] == s.calls;
    var t := Run(s, [Act(id, Update(op, now)), Act(id, Proceed), Act(id, Proceed)]);
    PerformsUpdate(s.store, t.store, call.key, record, op, now);
  }

  lemma PerformsUpdate(before: Store, after: Store, key: KeyHash, record: Record, op: Operation, now: nat)
    requires OnDisk(before, key, record) && WellFormed(record)
    requires after == if Admissible(op) && Updated(record, op, now).Some?
      then before.(dirs := before.dirs[key := Some(Json(Updated(record, op, now).value))]) else before
    ensures Performs(before, after, key, record, op, now)
  {
    UpdateWritesExactly(record, op, now);
  }

  /** Event `n` asks this call, while it executes, for the operation. */
  predicate AskedAt(disk: Disk, events: seq<Event>, id: CallId, op: Operation, now: nat, n: nat) {
    n < |events| && events[n] == Act(id, Update(op, now))
    && id in At(disk, events, n).calls && At(disk, events, n).calls[id].phase == Executing
  }

  ghost predicate Asked(disk: Disk, events: seq<Event>, id: CallId, op: Operation, now: nat) {
    exists n: nat :: AskedAt(disk, events, id, op, now, n)
  }

  /** An operation under way was asked for; the record about to be saved is what it leaves. */
  ghost predicate UnderWay(disk: Disk, events: seq<Event>, id: CallId, phase: Phase) {
    match phase
    case Reading(ForUpdate(op, now)) => Accepted(op) && Asked(disk, events, id, op, now)
    case Saving(base, next) => exists op, now :: AskedFor(disk, events, id, op, now, base, next)
    case _ => true
  }

  ghost predicate AskedFor(disk: Disk, events: seq<Event>, id: CallId, op: Operation, now: nat, base: Record,
                           next: Record) {
    Asked(disk, events, id, op, now) && Accepted(op) && Allowed(base.status, op) && Leaves(base, op, now, next)
  }

  lemma StaysAsked(disk: Disk, events: seq<Event>, event: Event, id: CallId, op: Operation, now: nat)
    requires Asked(disk, events, id, op, now)
    ensures Asked(disk, events + [event], id, op, now)
  {
    var n: nat :| AskedAt(disk, events, id, op, now, n);
    assert (events + [event])[..n] == events[..n];
    assert AskedAt(disk, events + [event], id, op, now, n);
  }

  lemma StaysUnderWay(disk: Disk, events: seq<Event>, event: Event, id: CallId, phase: Phase)
    requires UnderWay(disk, events, id, phase)
    ensures UnderWay(disk, events + [event], id, phase)
  {
    match phase
    case Reading(ForUpdate(op, now)) => StaysAsked(disk, events, event, id, op, now);
    case Saving(base, next) =>
      var op, now :| AskedFor(disk, events, id, op, now, base, next);
      StaysAsked(disk, events, event, id, op, now);
      assert AskedFor(disk, events + [event], id, op, now, base, next);
    case _ =>
  }

  lemma NowAsked(disk: Disk, events: seq<Event>, id: CallId, op: Operation, now: nat)
    requires var calls := Run(Initial(disk), events).calls; id in calls && calls[id].phase == Executing
    ensures Asked(disk, events + [Act(id, Update(op, now))], id, op, now)
  {
    var all := events + [Act(id, Update(op, now))];
    assert all[..|events|] == events;
    assert AskedAt(disk, all, id, op, now, |events|);
  }

  /** The phases in which an operation is under way. */
  predicate Busy(phase: Phase) {
    phase.Saving? || (phase.Reading? && phase.purpose.ForUpdate?)
  }

  lemma ReadBusy(store: Store, call: Call, purpose: Purpose, choice: Choice)
    requires Busy(Read(store, call, purpose, choice).phase)
    ensures var phase := Read(store, call, purpose, choice).phase;
      && phase.Saving? && purpose.ForUpdate?
      && (Accepted(purpose.op) ==>
        Allowed(phase.base.status, purpose.op) && Leaves(phase.base, purpose.op, purpose.now, phase.next))
  {
    if purpose.ForUpdate? {
      UpdateWritesExactly(store.dirs[call.key].value.record, purpose.op, purpose.now);
    }
  }

  lemma OtherBusy(store: Store, call: Call, choice: Choice)
    requires !call.phase.Reading? && Busy(ActOn(store, call, choice).1.phase)
    ensures call.phase == Executing && choice.Update? && Accepted(choice.op)
    ensures ActOn(store, call, choice).1.phase == Reading(ForUpdate(choice.op, choice.now))
  {
    if call.phase == Executing && choice.Update? {
      UpdateWritesExactly(ReservedRecord(call.key, call.request, 0), choice.op, 0);
    }
  }

  lemma ActUnderWay(disk: Disk, events: seq<Event>, store: Store, call: Call, id: CallId, choice: Choice)
    requires UnderWay(disk, events, id, call.phase)
    requires call.phase == Executing && choice.Update? ==> Asked(disk, events, id, choice.op, choice.now)
    ensures UnderWay(disk, events, id, ActOn(store, call, choice).1.phase)
  {
    var phase := ActOn(store, call, choice).1.phase;
    if Busy(phase) {
      if call.phase.Reading? {
        var purpose := call.phase.purpose;
        ReadBusy(store, call, purpose, choice);
        assert AskedFor(disk, events, id, purpose.op, purpose.now, phase.base, phase.next);
      } else {
        OtherBusy(store, call, choice);
      }
    }
  }

  lemma {:induction false} RunUnderWay(disk: Disk, events: seq<Event>, id: CallId)
    requires id in Run(Initial(disk), events).calls
    ensures UnderWay(disk, events, id, Run(Initial(disk), events).calls[id].phase)
    decreases |events|
  {
    if events != [] {
      var prefix, event := events[..|events| - 1], events[|events| - 1];
      var s := Run(Initial(disk), prefix);
      RunLast(Initial(disk), events);
      assert events == prefix + [event];
      if id in s.calls {
        RunUnderWay(disk, prefix, id);
        StaysUnderWay(disk, prefix, event, id, s.calls[id].phase);
        if event.Act? && event.id == id {
          if s.calls[id].phase == Executing && event.choice.Update? {
            NowAsked(disk, prefix, id, event.choice.op, event.choice.now);
          }
          ActUnderWay(disk, events, s.store, s.calls[id], id, event.choice);
        }
      }
    }
  }

  /** What one event may do to the record of an untampered key. */
  ghost predicate WrittenFor(disk: Disk, events: seq<Event>, s: State, event: Event, t: State, key: KeyHash) {
    && event.Act? && event.id in s.calls && s.calls[event.id].key == key
    && key in t.store.dirs && t.store.dirs[key].Some? && t.store.dirs[key].value.Json?
    && var record, call := t.store.dirs[key].value.record, s.calls[event.id];
      if key !in s.store.dirs
      then record == Record(1, key, call.request, Reserved, call.now, call.now, None, None)
      else
        && call.published && s.store.dirs[key].Some? && s.store.dirs[key].value.Json?
        && exists op, now :: AskedFor(disk, events, event.id, op, now, s.store.dirs[key].value.record, record)
  }

  lemma ActWrites(store: Store, call: Call, choice: Choice, key: KeyHash)
    requires StoreInv(store) && CallInv(store, call) && key !in store.tampered
    requires var after := ActOn(store, call, choice).0; key in after.dirs && (key in store.dirs ==>
      after.dirs[key] != store.dirs[key])
    ensures call.key == key
    ensures var after := ActOn(store, call, choice).0;
      if key !in store.dirs
      then after.dirs[key] == Some(Json(Record(1, key, call.request, Reserved, call.now, call.now, None, None)))
      else
        && call.phase.Saving? && call.published
        && OnDisk(store, key, call.phase.base) && OnDisk(after, key, call.phase.next)
  {
  }

  /** Over every run, the record of an untampered key is created reserved by the call that publishes it, and changed
      only by saving what an operation leaves that this same call was asked for while it executed. */
  lemma EveryWriteWasAsked(disk: Disk, events: seq<Event>, event: Event, key: KeyHash)
    requires var s := Run(Initial(disk), events);
      var t := Step(s, event);
      && key in t.store.dirs && key !in t.store.tampered
      && (key in s.store.dirs ==> t.store.dirs[key] != s.store.dirs[key])
    ensures var s := Run(Initial(disk), events); WrittenFor(disk, events, s, event, Step(s, event), key)
  {
    RunKeepsInv(Initial(disk), events);
    var s := Run(Initial(disk), events);
    assert event.Act? && event.id in s.calls;
    assert CallInv(s.store, s.calls[event.id]);
    ActFrame(s.store, s.calls[event.id], event.choice);
    ActWrites(s.store, s.calls[event.id], event.choice, key);
    RunUnderWay(disk, events, event.id);
  }

  // ---- Replies --------------------------------------------------------------

  /** In every run, an answered call of the plain lane is told what the status and the response of its record stand for;
      on an untampered key that record is of its own request. */
  lemma PlainReplyExactly(disk: Disk, events: seq<Event>, id: CallId)
    requires var calls := Run(Initial(disk), events).calls;
      id in calls && calls[id].lane.Plain? && calls[id].phase.Answered?
    ensures var s := Run(Initial(disk), events);
      var call := s.calls[id];
      && Says(call.phase.record, call.phase.reply)
      && (call.key !in s.store.tampered ==> call.phase.record.requestHash == call.request)
  {
    RunKeepsInv(Initial(disk), events);
    var s := Run(Initial(disk), events);
    assert CallInv(s.store, s.calls[id]);
    ReplySays(s.calls[id].phase.record);
  }

  /** A repeated request of the plain lane, left alone, is told so in three steps; nothing else changes. */
  lemma UndisturbedPlainReply(s: State, id: CallId, request: RequestHash, now: nat, record: Record)
    requires id !in s.calls && OnDisk(s.store, record.keyHash, record) && Loadable(Json(record), record.keyHash)
    requires record.requestHash == request
    ensures var t := Undisturbed(Step(s, Begin(id, record.keyHash, request, now, Plain)), id, 3);
      && t.store == s.store && id in t.calls && t.calls[id].phase.Answered?
      && t.calls[id].phase.record == record && Says(record, t.calls[id].phase.reply)
  {
    var key := record.keyHash;
    var begun := Step(s, Begin(id, key, request, now, Plain));
    var call := Call(key, request, now, Plain, Entering, false, false);
    UndisturbedRepeatReplays(s, id, key, request, now, Plain);
    UndisturbedIsAlone(begun, id, 3);
    var replayed := call.(phase := Returned(Replay(record)));
    SameAlone(s, id, call, replayed, 2);
    NextAlone(s.store, call, 2, (s.store, replayed), (s.store, Answer(s.store, replayed, record)));
    ReplySays(record);
  }

  /** Everything a verified reply needs, on one disk. */
  predicate Verifiable(record: Record, source: Option<Authority>, disk: Disk) {
    && source.Some? && record.postImage.Some? && record.status == Completed
    && var receipt := record.postImage.value;
      && BoundTo(receipt, source.value) && LinkedStand(receipt, disk)
      && forall i :: 0 <= i < |receipt.targets| ==>
        OwnerStands(Anchors(receipt, source.value), receipt.targets[i], disk) && HoldsRecorded(receipt.targets[i], disk)
  }

  /** The phase of a call that has read `k` targets of one unchanging disk. */
  predicate ReadSoFar(record: Record, anchors: seq<Authority>, disk: Disk, k: nat, phase: Phase)
    requires record.postImage.Some? && k <= |record.postImage.value.targets|
  {
    if forall i :: 0 <= i < k ==> TargetVerifies(anchors, record.postImage.value.targets[i], disk)
    then phase.Verifying? && phase.record == record && |phase.checked| == k
    else phase.Answered? && phase.record == record && phase.reply == ReplayUnavailable
  }

  lemma ReadOne(store: Store, call: Call, record: Record, k: nat)
    requires call.lane.Verified? && call.lane.source.Some? && record.postImage.Some?
    requires k < |record.postImage.value.targets|
    requires var anchors := Anchors(record.postImage.value, call.lane.source.value);
      ReadSoFar(record, anchors, store.disk, k, call.phase)
    ensures var (after, next) := ActOn(store, call, Proceed);
      && after == store && next == call.(phase := next.phase)
      && ReadSoFar(record, Anchors(record.postImage.value, call.lane.source.value), store.disk, k + 1, next.phase)
  {
  }

  lemma {:induction false} ReadAll(store: Store, call: Call, record: Record, k: nat)
    requires call.lane.Verified? && call.lane.source.Some? && record.postImage.Some?
    requires k <= |record.postImage.value.targets| && call.phase == Verifying(record, [])
    ensures var (after, next) := Alone(store, call, k);
      && after == store && next == call.(phase := next.phase)
      && ReadSoFar(record, Anchors(record.postImage.value, call.lane.source.value), store.disk, k, next.phase)
  {
    if k > 0 {
      ReadAll(store, call, record, k - 1);
      ReadOne(store, Alone(store, call, k - 1).1, record, k - 1);
    }
  }

  lemma ReadLast(store: Store, call: Call, record: Record)
    requires call.lane.Verified? && call.lane.source.Some? && record.postImage.Some?
    requires var receipt := record.postImage.value;
      ReadSoFar(record, Anchors(receipt, call.lane.source.value), store.disk, |receipt.targets|, call.phase)
    ensures var (after, next) := ActOn(store, call, Proceed);
      var receipt := record.postImage.value;
      var anchors := Anchors(receipt, call.lane.source.value);
      && after == store && next.phase.Answered? && next.phase.record == record
      && next.phase.reply ==
        if record.status == Completed
          && (forall i :: 0 <= i < |receipt.targets| ==> TargetVerifies(anchors, receipt.targets[i], store.disk))
        then ReplayResponse(record) else ReplayUnavailable
  {
  }

  /** The answer of the verified lane on an undisturbed disk. */
  predicate TellsVerified(store: Store, call: Call, record: Record, phase: Phase)
    requires call.lane.Verified?
  {
    && phase.Answered? && phase.record == record
    && if Verifiable(record, call.lane.source, store.disk) then Says(record, phase.reply)
       else phase.reply == ReplayUnavailable
  }

  /** How many steps the answer takes: the header check, one read per target, the reply. */
  function Steps(record: Record): nat {
    if record.postImage.None? then 1 else |record.postImage.value.targets| + 2
  }

  lemma VerifiableTargets(record: Record, source: Authority, disk: Disk)
    requires record.postImage.Some?
    requires BoundTo(record.postImage.value, source) && LinkedStand(record.postImage.value, disk)
    ensures Verifiable(record, Some(source), disk) <==>
      && record.status == Completed
      && forall i :: 0 <= i < |record.postImage.value.targets| ==>
        TargetVerifies(Anchors(record.postImage.value, source), record.postImage.value.targets[i], disk)
  {
    var receipt := record.postImage.value;
    forall i | 0 <= i < |receipt.targets|
      ensures TargetVerifies(Anchors(receipt, source), receipt.targets[i], disk) <==>
        OwnerStands(Anchors(receipt, source), receipt.targets[i], disk) && HoldsRecorded(receipt.targets[i], disk)
    {
      TargetVerifiesExactly(Anchors(receipt, source), receipt.targets[i], disk);
    }
  }

  lemma HeaderStarts(store: Store, call: Call, record: Record)
    requires call.phase == Returned(Replay(record)) && call.lane.Verified?
    ensures ActOn(store, call, Proceed) == (store, Answer(store, call, record))
    ensures var lane, next := call.lane, Answer(store, call, record);
      if lane.source.Some? && record.postImage.Some? && BoundTo(record.postImage.value, lane.source.value)
        && LinkedStand(record.postImage.value, store.disk)
      then next == call.(phase := Verifying(record, []))
      else next == call.(phase := Answered(ReplayUnavailable, record, []))
  {
    if call.lane.source.Some? && record.postImage.Some? {
      HeaderVerifiesExactly(record.postImage.value, call.lane.source.value, store.disk);
    }
  }

  lemma VerifiedTells(store: Store, call: Call, record: Record)
    requires call.phase == Returned(Replay(record)) && call.lane.Verified?
    ensures var (after, next) := Alone(store, call, Steps(record));
      after == store && TellsVerified(store, call, record, next.phase)
  {
    HeaderStarts(store, call, record);
    var started := Answer(store, call, record);
    FirstThen(store, call, started, Steps(record) - 1);
    if started.phase.Answered? {
      EndedTells(store, call, started, record);
    } else {
      StartedTells(store, started, record);
    }
  }

  lemma EndedTells(store: Store, call: Call, ended: Call, record: Record)
    requires call.lane.Verified? && ended == call.(phase := Answered(ReplayUnavailable, record, []))
    requires !(call.lane.source.Some? && record.postImage.Some?
      && BoundTo(record.postImage.value, call.lane.source.value) && LinkedStand(record.postImage.value, store.disk))
    ensures var (after, next) := Alone(store, ended, Steps(record) - 1);
      after == store && TellsVerified(store, call, record, next.phase)
  {
    RepeatStays(Proceeding(), (store, ended), Steps(record) - 1);
    UnstartedTells(store, call, record, ended.phase);
  }

  lemma FirstThen(store: Store, call: Call, next: Call, n: nat)
    requires ActOn(store, call, Proceed) == (store, next)
    ensures Alone(store, call, n + 1) == Alone(store, next, n)
  {
    assert Repeat(Proceeding(), (store, call), 0) == (store, call);
    assert Repeat(Proceeding(), (store, call), 1) == (store, next);
    RepeatAgain(Proceeding(), (store, call), 1, n);
  }

  lemma UnstartedTells(store: Store, call: Call, record: Record, phase: Phase)
    requires call.lane.Verified? && phase == Answered(ReplayUnavailable, record, [])
    requires !(call.lane.source.Some? && record.postImage.Some?
      && BoundTo(record.postImage.value, call.lane.source.value) && LinkedStand(record.postImage.value, store.disk))
    ensures TellsVerified(store, call, record, phase)
  {
  }

  lemma StartedTells(store: Store, call: Call, record: Record)
    requires call.lane.Verified? && call.lane.source.Some? && record.postImage.Some?
    requires call.phase == Verifying(record, [])
    requires BoundTo(record.postImage.value, call.lane.source.value)
    requires LinkedStand(record.postImage.value, store.disk)
    ensures var (after, next) := Alone(store, call, |record.postImage.value.targets| + 1);
      after == store && TellsVerified(store, call, record, next.phase)
  {
    var n := |record.postImage.value.targets|;
    ReadAll(store, call, record, n);
    ReadLast(store, Alone(store, call, n).1, record);
    VerifiableTargets(record, call.lane.source.value, store.disk);
    ReplySays(record);
  }

  /** A repeated request of the verified lane, left alone, is told what the record stands for if and only if that is
      completed, its receipt is bound to the caller's source, and header and targets hold on the disk; otherwise that
      the replay is unavailable. */
  lemma UndisturbedVerifiedReply(s: State, id: CallId, request: RequestHash, now: nat, source: Option<Authority>,
                                 record: Record)
    requires id !in s.calls && OnDisk(s.store, record.keyHash, record) && Loadable(Json(record), record.keyHash)
    requires record.requestHash == request
    ensures var lane := Verified(source);
      var t := Undisturbed(Step(s, Begin(id, record.keyHash, request, now, lane)), id, 2 + Steps(record));
      && t.store == s.store && id in t.calls
      && TellsVerified(s.store, Call(record.keyHash, request, now, lane, Entering, false, false), record,
                       t.calls[id].phase)
  {
    var key, lane := record.keyHash, Verified(source);
    var begun := Step(s, Begin(id, key, request, now, lane));
    var call := Call(key, request, now, lane, Entering, false, false);
    UndisturbedRepeatReplays(s, id, key, request, now, lane);
    UndisturbedIsAlone(begun, id, 2);
    UndisturbedIsAlone(begun, id, 2 + Steps(record));
    var replayed := call.(phase := Returned(Replay(record)));
    SameAlone(s, id, call, replayed, 2);
    RepeatAgain(Proceeding(), (s.store, call), 2, Steps(record));
    VerifiedTells(s.store, replayed, record);
  }

  lemma SameAlone(s: State, id: CallId, call: Call, next: Call, n: nat)
    requires Undisturbed(State(s.store, s.calls[id := call]), id, n) == State(s.store, s.calls[id := next])
    ensures Alone(s.store, call, n) == (s.store, next)
  {
    var begun := State(s.store, s.calls[id := call]);
    UndisturbedIsAlone(begun, id, n);
    assert begun.calls[id := Alone(s.store, call, n).1][id] == s.calls[id := next][id];
  }

  /** Nobody but the source a receipt is bound to gets the stored response: once an untampered key has a record with a
      receipt, a verified call with another root or another physical directory never does, whatever happens. */
  lemma ForeignSourceNeverReplays(disk: Disk, before: seq<Event>, after: seq<Event>, id: CallId, key: KeyHash,
                                  record: Record)
    requires OnDisk(Run(Initial(disk), before).store, key, record) && record.postImage.Some?
    requires var t := Run(Run(Initial(disk), before), after);
      && key !in t.store.tampered && id in t.calls && t.calls[id].key == key && t.calls[id].lane.Verified?
      && (t.calls[id].lane.source.Some? ==> !OwnSource(record.postImage.value, t.calls[id].lane.source.value))
    ensures !AnsweredFromStore(Run(Run(Initial(disk), before), after).calls, id)
  {
    var s := Run(Initial(disk), before);
    var t := Run(s, after);
    RunKeepsInv(Initial(disk), before);
    RecordLifeCycle(s, after, key);
    RunConcat(Initial(disk), before, after);
    assert OnDisk(t.store, key, record);
    if AnsweredFromStore(t.calls, id) {
      AnswerRests(disk, before + after, id);
      assert false;
    }
  }
}
