/** Verified replay over every run: what a stored answer says about the disk, and when its targets hold together. */
module ReplayVerification {
  import opened Common
  import opened PostImage
  import opened ReplayRecord
  import opened ReplayProtocol
  import opened ReplaySafety
  import opened ReplayTheorems

  /** The state before event `n`. */
  function At(disk: Disk, events: seq<Event>, n: nat): State
    requires n <= |events|
  {
    Run(Initial(disk), events[..n])
  }

  /** The disks a verification has read its targets from, one per target. */
  function Snapshots(phase: Phase): seq<Disk> {
    match phase
    case Verifying(_, checked) => checked
    case Answered(_, _, checked) => checked
    case _ => []
  }

  predicate HasRecord(phase: Phase) {
    phase.Verifying? || phase.Answered?
  }

  /** Event `n` is the read of target `i` by this very call. */
  predicate ReadsTarget(disk: Disk, events: seq<Event>, id: CallId, record: Record, i: nat, n: nat) {
    n < |events| && events[n].Act? && events[n].id == id
    && var calls := At(disk, events, n).calls;
    id in calls && calls[id].phase.Verifying? && calls[id].phase.record == record && |calls[id].phase.checked| == i
  }

  /** The call read target `i` at event `times[i]`, in this order and not before `start`, and saw `checked[i]`. */
  predicate ReadAtTimes(disk: Disk, events: seq<Event>, id: CallId, record: Record, checked: seq<Disk>, times: seq<nat>,
                        start: nat) {
    |times| == |checked|
    && (forall i :: 0 <= i < |times| ==> start <= times[i] && ReadsTarget(disk, events, id, record, i, times[i]))
    && (forall i :: 0 <= i < |times| ==> At(disk, events, times[i]).store.disk == checked[i])
    && forall i, j :: 0 <= i < j < |times| ==> times[i] < times[j]
  }

  /** How one event moves a verification: it begins, reads one target of the current disk, answers, or stays. */
  predicate SnapshotStep(before: Phase, after: Phase, disk: Disk, own: bool) {
    || Snapshots(after) == []
    || (HasRecord(before) && HasRecord(after) && before.record == after.record
      && (|| Snapshots(after) == Snapshots(before)
          || (own && before.Verifying? && Snapshots(after) == before.checked + [disk])))
  }

  lemma VerifyNextSnapshots(store: Store, call: Call, choice: Choice)
    requires call.phase.Verifying?
    ensures var after := VerifyNext(store, call, call.phase.record, call.phase.checked, choice).phase;
      SnapshotStep(call.phase, after, store.disk, true)
  {
  }

  lemma ReadWithoutRecord(store: Store, call: Call, purpose: Purpose, choice: Choice)
    ensures Snapshots(Read(store, call, purpose, choice).phase) == []
  {
  }

  lemma ActWithoutRecord(store: Store, call: Call, choice: Choice)
    requires !call.phase.Verifying? && !call.phase.Answered?
    ensures Snapshots(ActOn(store, call, choice).1.phase) == []
  {
    if call.phase.Reading? {
      ReadWithoutRecord(store, call, call.phase.purpose, choice);
    }
  }

  lemma ActSnapshots(store: Store, call: Call, choice: Choice)
    ensures SnapshotStep(call.phase, ActOn(store, call, choice).1.phase, store.disk, true)
  {
    if call.phase.Verifying? {
      VerifyNextSnapshots(store, call, choice);
    } else if !call.phase.Answered? {
      ActWithoutRecord(store, call, choice);
    }
  }

  lemma StepSnapshots(s: State, event: Event, id: CallId)
    requires id in Step(s, event).calls && Snapshots(Step(s, event).calls[id].phase) != []
    ensures id in s.calls
    ensures SnapshotStep(s.calls[id].phase, Step(s, event).calls[id].phase, s.store.disk, event.Act? && event.id == id)
  {
    if event.Act? && event.id == id && id in s.calls {
      ActSnapshots(s.store, s.calls[id], event.choice);
    }
  }

  lemma ReadsStayRead(disk: Disk, events: seq<Event>, id: CallId, record: Record, checked: seq<Disk>, times: seq<nat>,
                      start: nat)
    requires events != []
    requires ReadAtTimes(disk, events[..|events| - 1], id, record, checked, times, start)
    ensures ReadAtTimes(disk, events, id, record, checked, times, start)
  {
    var prefix := events[..|events| - 1];
    forall i | 0 <= i < |times| ensures At(disk, events, times[i]) == At(disk, prefix, times[i]) {
      assert ReadsTarget(disk, prefix, id, record, i, times[i]);
      assert prefix[..times[i]] == events[..times[i]];
    }
  }

  /** One more read at the end of the run. */
  lemma ReadsGrow(disk: Disk, events: seq<Event>, id: CallId, record: Record, checked: seq<Disk>, times: seq<nat>,
                  start: nat)
    requires events != [] && start < |events|
    requires ReadAtTimes(disk, events[..|events| - 1], id, record, checked, times, start)
    requires ReadsTarget(disk, events, id, record, |checked|, |events| - 1)
    ensures ReadAtTimes(disk, events, id, record, checked + [At(disk, events, |events| - 1).store.disk],
                        times + [|events| - 1], start)
  {
    ReadsStayRead(disk, events, id, record, checked, times, start);
    forall i | 0 <= i < |times| ensures times[i] < |events| - 1 {
      assert ReadsTarget(disk, events[..|events| - 1], id, record, i, times[i]);
    }
  }

  lemma RunLast(s: State, events: seq<Event>)
    requires events != []
    ensures Run(s, events) == Step(Run(s, events[..|events| - 1]), events[|events| - 1])
  {
  }

  /** The reads of a run with one more event. */
  lemma ReadsNext(disk: Disk, events: seq<Event>, id: CallId, start: nat, before: Phase, after: Phase, times: seq<nat>)
    returns (later: seq<nat>)
    requires events != [] && start < |events|
    requires var prefix := events[..|events| - 1];
      && id in At(disk, events, |prefix|).calls && At(disk, events, |prefix|).calls[id].phase == before
      && HasRecord(before) && HasRecord(after) && Snapshots(after) != []
      && SnapshotStep(before, after, At(disk, events, |prefix|).store.disk,
                      events[|prefix|].Act? && events[|prefix|].id == id)
      && ReadAtTimes(disk, prefix, id, before.record, Snapshots(before), times, start)
    ensures ReadAtTimes(disk, events, id, after.record, Snapshots(after), later, start)
  {
    if Snapshots(after) == Snapshots(before) {
      ReadsStayRead(disk, events, id, before.record, Snapshots(before), times, start);
      later := times;
    } else {
      ReadsGrow(disk, events, id, before.record, Snapshots(before), times, start);
      later := times + [|events| - 1];
    }
  }

  /** Every disk a verification relied on was read by this call, target after target, after any moment at which it had
      read none. */
  lemma {:induction false} ReadsHappened(disk: Disk, events: seq<Event>, id: CallId, start: nat)
    returns (times: seq<nat>)
    requires start <= |events|
    requires var calls := At(disk, events, start).calls; id in calls ==> Snapshots(calls[id].phase) == []
    requires var calls := Run(Initial(disk), events).calls; id in calls && HasRecord(calls[id].phase)
    ensures var phase := Run(Initial(disk), events).calls[id].phase;
      ReadAtTimes(disk, events, id, phase.record, Snapshots(phase), times, start)
    decreases |events|
  {
    var phase := Run(Initial(disk), events).calls[id].phase;
    assert events[..|events|] == events;
    if Snapshots(phase) == [] {
      times := [];
    } else {
      var prefix := events[..|events| - 1];
      var s := Run(Initial(disk), prefix);
      RunLast(Initial(disk), events);
      StepSnapshots(s, events[|events| - 1], id);
      assert prefix[..start] == events[..start];
      times := ReadsHappened(disk, prefix, id, start);
      times := ReadsNext(disk, events, id, start, s.calls[id].phase, phase, times);
    }
  }

  /** A verified call that was answered with a stored response. */
  predicate AnsweredFromStore(calls: map<CallId, Call>, id: CallId) {
    id in calls && calls[id].lane.Verified? && calls[id].phase.Answered? && calls[id].phase.reply.Stored?
  }

  // ---- The header check -----------------------------------------------------

  /** Event `n` is this call's header check of `record`: every linked root stood, and the reads began. */
  predicate ChecksHeader(disk: Disk, events: seq<Event>, id: CallId, record: Record, n: nat) {
    n < |events| && events[n].Act? && events[n].id == id
    && HeaderStep(At(disk, events, n), At(disk, events, n + 1), id, record)
  }

  predicate HeaderStep(s: State, t: State, id: CallId, record: Record) {
    && id in s.calls && s.calls[id].phase == Returned(Replay(record))
    && id in t.calls && t.calls[id].phase == Verifying(record, [])
    && record.postImage.Some? && LinkedStand(record.postImage.value, s.store.disk)
  }

  /** The call has passed the header check. */
  predicate Passed(call: Call) {
    call.lane.Verified? && (call.phase.Verifying? || (call.phase.Answered? && call.phase.reply.Stored?))
  }

  lemma AnswerPasses(store: Store, call: Call, record: Record)
    requires call.phase == Returned(Replay(record)) && Passed(Answer(store, call, record))
    ensures Answer(store, call, record).phase == Verifying(record, [])
    ensures record.postImage.Some? && LinkedStand(record.postImage.value, store.disk)
  {
    HeaderVerifiesExactly(record.postImage.value, call.lane.source.value, store.disk);
  }

  lemma ReadPassesNone(store: Store, call: Call, purpose: Purpose, choice: Choice)
    ensures !Passed(Read(store, call, purpose, choice))
  {
  }

  lemma VerifyPasses(store: Store, call: Call, choice: Choice)
    requires call.phase.Verifying? && call.lane.Verified?
    ensures VerifyNext(store, call, call.phase.record, call.phase.checked, choice).phase.record == call.phase.record
  {
  }

  lemma OtherPassesNone(store: Store, call: Call, choice: Choice)
    requires !HasRecord(call.phase) && !call.phase.Reading? && !call.phase.Returned?
    ensures !Passed(ActOn(store, call, choice).1)
  {
  }

  lemma ActPasses(store: Store, call: Call, choice: Choice)
    requires Passed(ActOn(store, call, choice).1)
    ensures
      || (Passed(call) && ActOn(store, call, choice).1.phase.record == call.phase.record)
      || (call.phase.Returned? && call.phase.outcome.Replay?)
  {
    ActFrame(store, call, choice);
    if call.phase.Verifying? {
      VerifyPasses(store, call, choice);
    } else if call.phase.Reading? {
      ReadPassesNone(store, call, call.phase.purpose, choice);
    } else if !call.phase.Answered? && !call.phase.Returned? {
      OtherPassesNone(store, call, choice);
    }
  }

  lemma StepPasses(s: State, event: Event, id: CallId)
    requires id in Step(s, event).calls && Passed(Step(s, event).calls[id])
    ensures id in s.calls
    ensures
      || (Passed(s.calls[id]) && Step(s, event).calls[id].phase.record == s.calls[id].phase.record)
      || (event.Act? && event.id == id && s.calls[id].phase.Returned? && s.calls[id].phase.outcome.Replay?)
  {
    if event.Act? && event.id == id && id in s.calls {
      ActPasses(s.store, s.calls[id], event.choice);
    }
  }

  /** Every verification that has begun, or has ended in a stored answer, began with a header check of its own. */
  lemma {:induction false} HeaderWasChecked(disk: Disk, events: seq<Event>, id: CallId) returns (n: nat)
    requires var calls := Run(Initial(disk), events).calls; id in calls && Passed(calls[id])
    ensures ChecksHeader(disk, events, id, Run(Initial(disk), events).calls[id].phase.record, n)
    decreases |events|
  {
    var prefix, event := events[..|events| - 1], events[|events| - 1];
    var s, record := Run(Initial(disk), prefix), Run(Initial(disk), events).calls[id].phase.record;
    RunLast(Initial(disk), events);
    StepPasses(s, event, id);
    if Passed(s.calls[id]) && s.calls[id].phase.record == record {
      n := HeaderWasChecked(disk, prefix, id);
      HeaderStays(disk, events, id, record, n);
    } else {
      n := |prefix|;
      HeaderPasses(s, event, id);
      HeaderNow(disk, events, id, record, s, Step(s, event));
    }
  }

  lemma HeaderStays(disk: Disk, events: seq<Event>, id: CallId, record: Record, n: nat)
    requires events != [] && ChecksHeader(disk, events[..|events| - 1], id, record, n)
    ensures ChecksHeader(disk, events, id, record, n)
  {
    var prefix := events[..|events| - 1];
    assert prefix[..n] == events[..n] && prefix[..n + 1] == events[..n + 1];
  }

  lemma HeaderPasses(s: State, event: Event, id: CallId)
    requires event.Act? && event.id == id && id in s.calls
    requires s.calls[id].phase.Returned? && s.calls[id].phase.outcome.Replay? && Passed(Step(s, event).calls[id])
    ensures HeaderStep(s, Step(s, event), id, Step(s, event).calls[id].phase.record)
  {
    AnswerPasses(s.store, s.calls[id], s.calls[id].phase.outcome.record);
  }

  lemma HeaderNow(disk: Disk, events: seq<Event>, id: CallId, record: Record, s: State, t: State)
    requires events != [] && events[|events| - 1].Act? && events[|events| - 1].id == id
    requires s == Run(Initial(disk), events[..|events| - 1]) && t == Run(Initial(disk), events)
    requires HeaderStep(s, t, id, record)
    ensures ChecksHeader(disk, events, id, record, |events| - 1)
  {
    assert events[..|events| - 1 + 1] == events;
  }

  /** The receipt names the root and the physical key of the caller's own source. */
  predicate OwnSource(receipt: Receipt, source: Authority) {
    source.stableKey.Some? && receipt.source == Some(Binding(source.root, source.stableKey.value))
  }

  /** What a stored answer of the verified lane rests on: a completed record with that response, its receipt bound to
      the caller's own source, and a disk for each target on which it held beneath the deepest admitted root above. */
  predicate RestsOnReceipt(call: Call, response: Response, record: Record, checked: seq<Disk>) {
    && record.status == Completed && record.response == Some(response) && Storable(response)
    && call.lane.Verified? && call.lane.source.Some? && record.postImage.Some?
    && var receipt, source := record.postImage.value, call.lane.source.value;
      && OwnSource(receipt, source) && 1 <= |receipt.targets| <= 4096 && |checked| == |receipt.targets|
      && forall i :: 0 <= i < |checked| ==>
        && HoldsRecorded(receipt.targets[i], checked[i])
        && OwnerStands(Anchors(receipt, source), receipt.targets[i], checked[i])
  }

  lemma StoredAnswer(call: Call)
    requires VerificationInv(call) && call.lane.Verified? && call.phase.Answered? && call.phase.reply.Stored?
    ensures RestsOnReceipt(call, call.phase.reply.response, call.phase.record, call.phase.checked)
  {
    var receipt, checked := call.phase.record.postImage.value, call.phase.checked;
    forall i | 0 <= i < |checked|
      ensures HoldsRecorded(receipt.targets[i], checked[i])
      ensures OwnerStands(Anchors(receipt, call.lane.source.value), receipt.targets[i], checked[i])
    {
      TargetVerifiesExactly(Anchors(receipt, call.lane.source.value), receipt.targets[i], checked[i]);
    }
  }

  lemma CleanAnswer(store: Store, call: Call)
    requires CallInv(store, call) && call.phase.Answered? && call.key !in store.tampered
    requires call.phase.record.status == Completed
    ensures call.phase.record.requestHash == call.request
    ensures call.key in store.dirs && store.dirs[call.key] == Some(Json(call.phase.record))
  {
  }

  /** On a key that was not tampered with, the record answered from is still the one in the store. */
  predicate StillStored(store: Store, call: Call, record: Record) {
    call.key !in store.tampered ==>
      record.requestHash == call.request && call.key in store.dirs && store.dirs[call.key] == Some(Json(record))
  }

  lemma AnswerRests(disk: Disk, events: seq<Event>, id: CallId)
    requires AnsweredFromStore(Run(Initial(disk), events).calls, id)
    ensures var s := Run(Initial(disk), events);
      var call := s.calls[id];
      && RestsOnReceipt(call, call.phase.reply.response, call.phase.record, call.phase.checked)
      && StillStored(s.store, call, call.phase.record)
  {
    RunKeepsInv(Initial(disk), events);
    var s := Run(Initial(disk), events);
    assert CallInv(s.store, s.calls[id]);
    StoredAnswer(s.calls[id]);
    if s.calls[id].key !in s.store.tampered {
      CleanAnswer(s.store, s.calls[id]);
    }
  }

  lemma ReadsBehindHeader(disk: Disk, events: seq<Event>, id: CallId, record: Record, header: nat)
    returns (times: seq<nat>)
    requires ChecksHeader(disk, events, id, record, header)
    requires var calls := Run(Initial(disk), events).calls; id in calls && HasRecord(calls[id].phase)
    ensures var phase := Run(Initial(disk), events).calls[id].phase;
      ReadAtTimes(disk, events, id, phase.record, Snapshots(phase), times, header + 1)
  {
    times := ReadsHappened(disk, events, id, header + 1);
  }

  /** A verified call gets the stored response only from a completed record whose receipt matched, target after target,
      while this call was reading it: at the moment of its own read each target had its recorded bytes, or was absent as
      recorded, and the deepest admitted root above it was still the directory admitted. The receipt is bound to the
      caller's own source, and at one event of this call, before its first read, every linked root stood as recorded. On
      an untampered key that record is of the caller's own request and is still the one in the store. */
  lemma VerifiedReplayIsFaithful(disk: Disk, events: seq<Event>, id: CallId) returns (times: seq<nat>, header: nat)
    requires AnsweredFromStore(Run(Initial(disk), events).calls, id)
    ensures var s := Run(Initial(disk), events);
      var call := s.calls[id];
      var record, checked := call.phase.record, call.phase.checked;
      && RestsOnReceipt(call, call.phase.reply.response, record, checked)
      && ChecksHeader(disk, events, id, record, header)
      && ReadAtTimes(disk, events, id, record, checked, times, header + 1)
      && StillStored(s.store, call, record)
  {
    AnswerRests(disk, events, id);
    header := HeaderWasChecked(disk, events, id);
    times := ReadsBehindHeader(disk, events, id, Run(Initial(disk), events).calls[id].phase.record, header);
  }

  /** `now` shows, for every target, what the verification saw when it read that target. */
  predicate ReadsAsChecked(receipt: Receipt, checked: seq<Disk>, now: Disk) {
    |checked| == |receipt.targets|
    && forall i :: 0 <= i < |checked| ==>
      Look(now, receipt.targets[i].path) == Look(checked[i], receipt.targets[i].path)
  }

  /** The whole receipt holds on a disk exactly when every target reads there as it did at its own reading. */
  lemma HoldTogetherExactly(disk: Disk, events: seq<Event>, id: CallId, now: Disk)
    requires AnsweredFromStore(Run(Initial(disk), events).calls, id)
    ensures var phase := Run(Initial(disk), events).calls[id].phase;
      && phase.record.postImage.Some? && |phase.checked| == |phase.record.postImage.value.targets|
      && (VerifyPostImage(phase.record.postImage.value, now) <==>
        ReadsAsChecked(phase.record.postImage.value, phase.checked, now))
  {
    var times, header := VerifiedReplayIsFaithful(disk, events, id);
    var phase := Run(Initial(disk), events).calls[id].phase;
    var targets := phase.record.postImage.value.targets;
    forall i | 0 <= i < |targets|
      ensures HoldsRecorded(targets[i], now) <==> Look(now, targets[i].path) == Look(phase.checked[i], targets[i].path)
    {
      assert HoldsRecorded(targets[i], phase.checked[i]);
    }
  }

  /** From event `start` on, nobody changes what a read of a target finds. */
  predicate LeavesTargetsAlone(disk: Disk, events: seq<Event>, start: nat, receipt: Receipt) {
    forall n, i :: start <= n < |events| && events[n].WriteDisk? && 0 <= i < |receipt.targets| ==>
      Look(events[n].disk, receipt.targets[i].path) == Look(At(disk, events, n).store.disk, receipt.targets[i].path)
  }

  lemma {:induction false} TargetStays(disk: Disk, events: seq<Event>, start: nat, receipt: Receipt, i: nat, n: nat)
    requires start <= n <= |events| && i < |receipt.targets| && LeavesTargetsAlone(disk, events, start, receipt)
    ensures Look(Run(Initial(disk), events).store.disk, receipt.targets[i].path) ==
      Look(At(disk, events, n).store.disk, receipt.targets[i].path)
    decreases |events| - n
  {
    if n == |events| {
      assert events[..n] == events;
    } else {
      TargetStays(disk, events, start, receipt, i, n + 1);
      assert events[..n + 1][..n] == events[..n];
      StepDisk(At(disk, events, n), events[n]);
    }
  }

  lemma StepDisk(s: State, event: Event)
    ensures Step(s, event).store.disk == if event.WriteDisk? then event.disk else s.store.disk
  {
  }

  /** If nobody writes a target from some moment before the first read on, the whole receipt holds at the end. */
  lemma QuietRunHoldsTogether(disk: Disk, events: seq<Event>, id: CallId, start: nat)
    requires AnsweredFromStore(Run(Initial(disk), events).calls, id)
    requires start <= |events|
    requires var calls := At(disk, events, start).calls; id in calls ==> Snapshots(calls[id].phase) == []
    requires var record := Run(Initial(disk), events).calls[id].phase.record;
      record.postImage.Some? ==> LeavesTargetsAlone(disk, events, start, record.postImage.value)
    ensures var s := Run(Initial(disk), events);
      var receipt := s.calls[id].phase.record.postImage;
      receipt.Some? && VerifyPostImage(receipt.value, s.store.disk)
  {
    var s := Run(Initial(disk), events);
    HoldTogetherExactly(disk, events, id, s.store.disk);
    var times := ReadsHappened(disk, events, id, start);
    var receipt, checked := s.calls[id].phase.record.postImage.value, s.calls[id].phase.checked;
    forall i | 0 <= i < |checked|
      ensures Look(s.store.disk, receipt.targets[i].path) == Look(checked[i], receipt.targets[i].path)
    {
      assert ReadsTarget(disk, events, id, s.calls[id].phase.record, i, times[i]);
      TargetStays(disk, events, start, receipt, i, times[i]);
    }
  }

  // ---- Where a receipt comes from -------------------------------------------

  /** A completion that brings `receipt`. */
  predicate Brings(choice: Choice, receipt: Receipt) {
    choice.Update? && choice.op.CompleteWithPostImage? && choice.op.receipt == Some(receipt)
  }

  /** Event `n` is the completion, by the call that published `key`, of its operation with `receipt`. */
  predicate GivenAt(disk: Disk, events: seq<Event>, key: KeyHash, receipt: Receipt, n: nat) {
    n < |events| && events[n].Act? && Brings(events[n].choice, receipt)
    && var calls := At(disk, events, n).calls;
    events[n].id in calls && Completing(calls[events[n].id], key)
  }

  predicate Completing(call: Call, key: KeyHash) {
    call.key == key && call.phase == Executing && call.published
  }

  predicate Given(disk: Disk, events: seq<Event>, key: KeyHash, receipt: Receipt) {
    exists n: nat :: n < |events| && GivenAt(disk, events, key, receipt, n)
  }

  /** The receipt a call is about to store. */
  function Carried(phase: Phase): Option<Receipt> {
    match phase
    case Reading(ForUpdate(CompleteWithPostImage(_, receipt), _)) => receipt
    case Saving(_, next) => next.postImage
    case _ => None
  }

  predicate Stores(store: Store, key: KeyHash, receipt: Receipt) {
    key in store.dirs && store.dirs[key].Some? && store.dirs[key].value.Json?
    && store.dirs[key].value.record.postImage == Some(receipt)
  }

  /** Only the completion that brings a receipt puts one on a record. */
  lemma UpdateBringsReceipt(record: Record, op: Operation, now: nat)
    requires WellFormed(record) && Admissible(op) && Updated(record, op, now).Some?
    ensures Updated(record, op, now).value.postImage == if op.CompleteWithPostImage? then op.receipt else None
  {
  }

  lemma LoadedCarries(call: Call, purpose: Purpose, record: Record, receipt: Receipt)
    requires WellFormed(record) && Carried(Loaded(call, purpose, record).phase) == Some(receipt)
    ensures Carried(Reading(purpose)) == Some(receipt)
  {
    if purpose.ForUpdate? && Admissible(purpose.op) && Updated(record, purpose.op, purpose.now).Some? {
      UpdateBringsReceipt(record, purpose.op, purpose.now);
    }
  }

  lemma ReadCarries(store: Store, call: Call, purpose: Purpose, choice: Choice, receipt: Receipt)
    requires StoreInv(store) && call.key in store.dirs && call.key !in store.tampered
    requires Carried(Read(store, call, purpose, choice).phase) == Some(receipt)
    ensures Carried(Reading(purpose)) == Some(receipt)
  {
    assert Intact(store, call.key);
    LoadedCarries(call, purpose, store.dirs[call.key].value.record, receipt);
  }

  lemma UnreadCarries(store: Store, call: Call, choice: Choice, receipt: Receipt)
    requires !call.phase.Reading? && Carried(ActOn(store, call, choice).1.phase) == Some(receipt)
    ensures call.phase == Executing && Brings(choice, receipt)
  {
  }

  lemma ActCarries(store: Store, call: Call, choice: Choice, receipt: Receipt)
    requires StoreInv(store) && CallInv(store, call) && call.key !in store.tampered
    requires Carried(ActOn(store, call, choice).1.phase) == Some(receipt)
    ensures Carried(call.phase) == Some(receipt) || (call.phase == Executing && Brings(choice, receipt))
  {
    if call.phase.Reading? {
      ReadCarries(store, call, call.phase.purpose, choice, receipt);
    } else {
      UnreadCarries(store, call, choice, receipt);
    }
  }

  lemma ActStores(store: Store, call: Call, choice: Choice, key: KeyHash, receipt: Receipt)
    requires CallInv(store, call) && Stores(ActOn(store, call, choice).0, key, receipt)
    ensures Stores(store, key, receipt) || (call.key == key && Carried(call.phase) == Some(receipt))
  {
  }

  /** Every receipt stored or about to be stored on an untampered key was given for that key. */
  ghost predicate AllGiven(s: State, disk: Disk, events: seq<Event>) {
    && (forall key, receipt :: key !in s.store.tampered && Stores(s.store, key, receipt) ==>
      Given(disk, events, key, receipt))
    && (forall id :: id in s.calls ==> CarriedGiven(s.store, s.calls[id], disk, events))
  }

  ghost predicate CarriedGiven(store: Store, call: Call, disk: Disk, events: seq<Event>) {
    call.key !in store.tampered && Carried(call.phase).Some? ==>
      Given(disk, events, call.key, Carried(call.phase).value)
  }

  lemma StoredWasGiven(s: State, id: CallId, choice: Choice, disk: Disk, events: seq<Event>)
    requires Inv(s) && id in s.calls && AllGiven(s, disk, events)
    ensures forall key, receipt ::
      key !in s.store.tampered && Stores(ActOn(s.store, s.calls[id], choice).0, key, receipt) ==>
      Given(disk, events, key, receipt)
  {
    assert CallInv(s.store, s.calls[id]) && CarriedGiven(s.store, s.calls[id], disk, events);
    forall key, receipt | key !in s.store.tampered && Stores(ActOn(s.store, s.calls[id], choice).0, key, receipt)
      ensures Given(disk, events, key, receipt)
    {
      ActStores(s.store, s.calls[id], choice, key, receipt);
    }
  }

  lemma CarriedWasGiven(s: State, id: CallId, choice: Choice, disk: Disk, events: seq<Event>)
    requires Inv(s) && id in s.calls && AllGiven(s, disk, events)
    requires forall receipt :: Completing(s.calls[id], s.calls[id].key) && Brings(choice, receipt) ==>
      Given(disk, events, s.calls[id].key, receipt)
    ensures var carried := Carried(ActOn(s.store, s.calls[id], choice).1.phase);
      s.calls[id].key !in s.store.tampered && carried.Some? ==> Given(disk, events, s.calls[id].key, carried.value)
  {
    var carried := Carried(ActOn(s.store, s.calls[id], choice).1.phase);
    assert CallInv(s.store, s.calls[id]) && CarriedGiven(s.store, s.calls[id], disk, events);
    if s.calls[id].key !in s.store.tampered && carried.Some? {
      ActCarries(s.store, s.calls[id], choice, carried.value);
    }
  }

  lemma ActKeepsGiven(s: State, id: CallId, choice: Choice, disk: Disk, events: seq<Event>)
    requires Inv(s) && id in s.calls && AllGiven(s, disk, events)
    requires forall receipt :: Completing(s.calls[id], s.calls[id].key) && Brings(choice, receipt) ==>
      Given(disk, events, s.calls[id].key, receipt)
    ensures AllGiven(Step(s, Act(id, choice)), disk, events)
  {
    var (after, next) := ActOn(s.store, s.calls[id], choice);
    StoredWasGiven(s, id, choice, disk, events);
    CarriedWasGiven(s, id, choice, disk, events);
    ActFrame(s.store, s.calls[id], choice);
    CallKeepsGiven(s, id, after, next, disk, events);
  }

  lemma CallKeepsGiven(s: State, id: CallId, after: Store, next: Call, disk: Disk, events: seq<Event>)
    requires AllGiven(s, disk, events) && after.tampered == s.store.tampered
    requires forall key, receipt :: key !in after.tampered && Stores(after, key, receipt) ==>
      Given(disk, events, key, receipt)
    requires CarriedGiven(after, next, disk, events)
    ensures AllGiven(State(after, s.calls[id := next]), disk, events)
  {
    forall other | other in s.calls && other != id ensures CarriedGiven(after, s.calls[other], disk, events) {
      assert CarriedGiven(s.store, s.calls[other], disk, events);
    }
  }

  lemma StaysGiven(disk: Disk, events: seq<Event>, event: Event, key: KeyHash, receipt: Receipt)
    requires Given(disk, events, key, receipt)
    ensures Given(disk, events + [event], key, receipt)
  {
    var n: nat :| n < |events| && GivenAt(disk, events, key, receipt, n);
    assert (events + [event])[..n] == events[..n];
    assert GivenAt(disk, events + [event], key, receipt, n);
  }

  lemma MoreGiven(s: State, disk: Disk, events: seq<Event>, event: Event)
    requires AllGiven(s, disk, events)
    ensures AllGiven(s, disk, events + [event])
  {
    forall key, receipt | Given(disk, events, key, receipt) ensures Given(disk, events + [event], key, receipt) {
      StaysGiven(disk, events, event, key, receipt);
    }
    forall id | id in s.calls ensures CarriedGiven(s.store, s.calls[id], disk, events + [event]) {
      assert CarriedGiven(s.store, s.calls[id], disk, events);
    }
  }

  lemma NowGiven(disk: Disk, events: seq<Event>, id: CallId, choice: Choice, receipt: Receipt)
    requires var calls := Run(Initial(disk), events).calls; id in calls && Completing(calls[id], calls[id].key)
    requires Brings(choice, receipt)
    ensures Given(disk, events + [Act(id, choice)], Run(Initial(disk), events).calls[id].key, receipt)
  {
    var all := events + [Act(id, choice)];
    assert all[..|events|] == events;
    assert GivenAt(disk, all, Run(Initial(disk), events).calls[id].key, receipt, |events|);
  }

  /** An event of no call adds no receipt, except by tampering. */
  lemma OtherKeepsGiven(s: State, event: Event, disk: Disk, events: seq<Event>)
    requires AllGiven(s, disk, events) && !event.Act?
    ensures AllGiven(Step(s, event), disk, events)
  {
    var t := Step(s, event);
    forall id | id in t.calls ensures CarriedGiven(t.store, t.calls[id], disk, events) {
      assert id in s.calls ==> CarriedGiven(s.store, s.calls[id], disk, events);
    }
  }

  lemma {:induction false} RunGiven(disk: Disk, events: seq<Event>)
    ensures AllGiven(Run(Initial(disk), events), disk, events)
    decreases |events|
  {
    if events != [] {
      var prefix, event := events[..|events| - 1], events[|events| - 1];
      RunGiven(disk, prefix);
      assert events == prefix + [event];
      MoreGiven(Run(Initial(disk), prefix), disk, prefix, event);
      StepGiven(disk, prefix, event);
    }
  }

  lemma StepGiven(disk: Disk, prefix: seq<Event>, event: Event)
    requires AllGiven(Run(Initial(disk), prefix), disk, prefix + [event])
    ensures AllGiven(Step(Run(Initial(disk), prefix), event), disk, prefix + [event])
  {
    var s := Run(Initial(disk), prefix);
    if !event.Act? {
      OtherKeepsGiven(s, event, disk, prefix + [event]);
    } else if event.id in s.calls {
      RunKeepsInv(Initial(disk), prefix);
      forall receipt | Completing(s.calls[event.id], s.calls[event.id].key) && Brings(event.choice, receipt)
        ensures Given(disk, prefix + [event], s.calls[event.id].key, receipt)
      {
        NowGiven(disk, prefix, event.id, event.choice, receipt);
      }
      ActKeepsGiven(s, event.id, event.choice, disk, prefix + [event]);
    }
  }

  /** End to end: a stored answer on an untampered key comes from a receipt with which the call that published the key
      completed its operation in this run; and if that receipt was captured from what its operation left, then each
      written path read, at its own reading, as it did when the operation had finished. */
  lemma ReplayMeansWhatWasLeft(disk: Disk, events: seq<Event>, id: CallId)
    requires AnsweredFromStore(Run(Initial(disk), events).calls, id)
    requires var s := Run(Initial(disk), events); s.calls[id].key !in s.store.tampered
    ensures var phase := Run(Initial(disk), events).calls[id].phase;
      && phase.record.postImage.Some?
      && Given(disk, events, Run(Initial(disk), events).calls[id].key, phase.record.postImage.value)
      && forall written, left :: Records(phase.record.postImage.value.targets, written, left) ==>
        && |phase.checked| == |written|
        && forall i :: 0 <= i < |written| ==> Look(phase.checked[i], written[i]) == Look(left, written[i])
  {
    AnswerRests(disk, events, id);
    RunGiven(disk, events);
    var s := Run(Initial(disk), events);
    var phase := s.calls[id].phase;
    var receipt := phase.record.postImage.value;
    assert Stores(s.store, s.calls[id].key, receipt);
    forall written, left | Records(receipt.targets, written, left)
      ensures |phase.checked| == |written|
      ensures forall i :: 0 <= i < |written| ==> Look(phase.checked[i], written[i]) == Look(left, written[i])
    {
      ReadAsLeft(receipt.targets, phase.checked, written, left);
    }
  }

  lemma ReadAsLeft(targets: seq<Target>, checked: seq<Disk>, written: seq<Path>, left: Disk)
    requires Records(targets, written, left) && |checked| == |targets|
    requires forall i :: 0 <= i < |checked| ==> HoldsRecorded(targets[i], checked[i])
    ensures forall i :: 0 <= i < |written| ==> Look(checked[i], written[i]) == Look(left, written[i])
  {
  }

  // ---- A run in which the targets never hold together ----------------------

  /** A disk on which one target holds what was recorded and the other does not. */
  function Splitting(disk: Disk, good: Target, bad: Target): (split: Disk)
    ensures good.path != bad.path ==> HoldsRecorded(good, split) && !HoldsRecorded(bad, split)
    ensures split.roots == disk.roots
  {
    var files := match good.contentDigest
      case None => disk.files - {good.path}
      case Some(digest) => disk.files[good.path := Regular(digest.preimage)];
    disk.(files := if bad.contentDigest.None? then files[bad.path := Regular([])] else files - {bad.path})
  }

  function Acts(id: CallId, n: nat): seq<Event> {
    seq(n, _ => Act(id, Proceed))
  }

  lemma {:induction false} RunConcat(s: State, a: seq<Event>, b: seq<Event>)
    ensures Run(s, a + b) == Run(Run(s, a), b)
    decreases |b|
  {
    if b == [] {
      assert a + b == a;
    } else {
      assert (a + b)[..|a + b| - 1] == a + b[..|b| - 1];
      RunConcat(s, a, b[..|b| - 1]);
    }
  }

  lemma RunCons(s: State, event: Event, rest: seq<Event>)
    ensures Run(s, [event] + rest) == Run(Step(s, event), rest)
  {
    RunConcat(s, [event], rest);
    assert [event][..0] == [];
  }

  lemma {:induction false} RunActs(s: State, id: CallId, n: nat)
    ensures Run(s, Acts(id, n)) == Undisturbed(s, id, n)
  {
    if n > 0 {
      RunActs(s, id, n - 1);
      assert Acts(id, n)[..n - 1] == Acts(id, n - 1);
    }
  }

  /** A call with an admitted source, run for `n` steps. */
  function Calls(id: CallId, key: KeyHash, request: RequestHash, source: Authority, n: nat): seq<Event> {
    [Begin(id, key, request, 0, Verified(Some(source)))] + Acts(id, n)
  }

  function Completes(id: CallId, response: Response, receipt: Receipt): seq<Event> {
    [Act(id, Update(CompleteWithPostImage(response, Some(receipt)), 0)), Act(id, Proceed), Act(id, Proceed)]
  }

  lemma CallsRun(s: State, id: CallId, key: KeyHash, request: RequestHash, source: Authority, n: nat)
    ensures Run(s, Calls(id, key, request, source, n)) ==
      Undisturbed(Step(s, Begin(id, key, request, 0, Verified(Some(source)))), id, n)
  {
    RunCons(s, Begin(id, key, request, 0, Verified(Some(source))), Acts(id, n));
    RunActs(Step(s, Begin(id, key, request, 0, Verified(Some(source)))), id, n);
  }

  function Finished(record: Record, response: Response, receipt: Receipt): Record {
    WithStatusAndResponse(record, Completed, Some(response), 0).(postImage := Some(receipt))
  }

  /** The first executor completes its reserved record with a receipt. */
  lemma CompletesRun(s: State, id: CallId, response: Response, receipt: Receipt, record: Record)
    requires id in s.calls && s.calls[id].phase == Executing && ValidResponse(response) && receipt.targets != []
    requires var key := s.calls[id].key; key in s.store.dirs && s.store.dirs[key] == Some(Json(record))
    requires Loadable(Json(record), s.calls[id].key) && record.requestHash == s.calls[id].request
    requires record.status == Reserved
    ensures var done := Some(Json(Finished(record, response, receipt)));
      Run(s, Completes(id, response, receipt)) == s.(store := s.store.(dirs := s.store.dirs[s.calls[id].key := done]))
  {
    var op, call := CompleteWithPostImage(response, Some(receipt)), s.calls[id];
    var done := Finished(record, response, receipt);
    var reading, saving := call.(phase := Reading(ForUpdate(op, 0))), call.(phase := Saving(record, done));
    RunThree(s, Act(id, Update(op, 0)), Act(id, Proceed), Act(id, Proceed));
    CompletesActs(s.store, call, op, record, done);
    assert s.calls[id := call] == s.calls;
    StepActs(s, id, s.store, call, Update(op, 0), s.store, reading);
    StepActs(s, id, s.store, reading, Proceed, s.store, saving);
    StepActs(s, id, s.store, saving, Proceed, s.store.(dirs := s.store.dirs[call.key := Some(Json(done))]), call);
  }

  lemma RunThree(s: State, a: Event, b: Event, c: Event)
    ensures Run(s, [a, b, c]) == Step(Step(Step(s, a), b), c)
  {
    assert [a][..0] == [] && Run(s, [a]) == Step(s, a);
    assert [a, b][..1] == [a] && Run(s, [a, b]) == Step(Step(s, a), b);
    assert [a, b, c][..2] == [a, b];
  }

  lemma StepActs(s: State, id: CallId, store: Store, call: Call, choice: Choice, after: Store, next: Call)
    requires ActOn(store, call, choice) == (after, next)
    ensures Step(State(store, s.calls[id := call]), Act(id, choice)) == State(after, s.calls[id := next])
  {
    ReplacedCall(s.calls, id, call, next);
  }

  lemma CompletesActs(store: Store, call: Call, op: Operation, record: Record, done: Record)
    requires call.phase == Executing && op.CompleteWithPostImage? && Admissible(op)
    requires call.key in store.dirs && store.dirs[call.key] == Some(Json(record)) && Loadable(Json(record), call.key)
    requires record.requestHash == call.request && record.status == Reserved && Updated(record, op, 0) == Some(done)
    ensures var reading, saving := call.(phase := Reading(ForUpdate(op, 0))), call.(phase := Saving(record, done));
      && ActOn(store, call, Update(op, 0)) == (store, reading)
      && ActOn(store, reading, Proceed) == (store, saving)
      && ActOn(store, saving, Proceed) == (store.(dirs := store.dirs[call.key := Some(Json(done))]), call)
  {
  }

  /** Two targets of a receipt that was true when the operation ended. */
  predicate Scene(left: Disk, source: Authority, first: Target, second: Target, receipt: Receipt) {
    BindToSources(Receipt([first, second], None, []), source, [], left) == Some(receipt) && first.path != second.path
  }

  /** Reserve, complete with the receipt, lose the second target, ask again. */
  function Before(left: Disk, source: Authority, first: Target, second: Target, receipt: Receipt, key: KeyHash,
                  request: RequestHash, response: Response): seq<Event> {
    Calls(0, key, request, source, 7) + Completes(0, response, receipt) + [WriteDisk(Splitting(left, first, second))]
  }

  /** Check the header and read the first target; swap the targets; read the second and answer. */
  function Again(left: Disk, source: Authority, first: Target, second: Target, key: KeyHash, request: RequestHash)
    : seq<Event> {
    Calls(1, key, request, source, 4) + [WriteDisk(Splitting(left, second, first))] + Acts(1, 2)
  }

  /** Reserved and completed: the record of the first call is in the store, with its receipt. */
  lemma CompletedRun(left: Disk, source: Authority, receipt: Receipt, key: KeyHash, request: RequestHash,
                     response: Response)
    requires ValidResponse(response) && receipt.targets != []
    ensures var s := Run(Initial(left), Calls(0, key, request, source, 7) + Completes(0, response, receipt));
      var record := Finished(ReservedRecord(key, request, 0), response, receipt);
      && s.store.dirs == map[key := Some(Json(record))] && s.store.claims == {} && s.calls.Keys == {0}
  {
    var s0 := Initial(left);
    var reserve, complete := Calls(0, key, request, source, 7), Completes(0, response, receipt);
    ReservedRun(left, source, key, request);
    CompletesRun(Run(s0, reserve), 0, response, receipt, ReservedRecord(key, request, 0));
    RunConcat(s0, reserve, complete);
  }

  lemma ReservedRun(left: Disk, source: Authority, key: KeyHash, request: RequestHash)
    ensures var s := Run(Initial(left), Calls(0, key, request, source, 7));
      && s.store.dirs == map[key := Some(Json(ReservedRecord(key, request, 0)))] && s.store.claims == {}
      && s.calls == map[0 := Call(key, request, 0, Verified(Some(source)), Executing, true, true)]
  {
    CallsRun(Initial(left), 0, key, request, source, 7);
    UndisturbedCallExecutesFirst(Initial(left), 0, key, request, 0, Verified(Some(source)));
  }

  /** Up to the second call: the completed record is in the store and the second target is gone. */
  lemma BeforeRun(left: Disk, source: Authority, first: Target, second: Target, receipt: Receipt, key: KeyHash,
                  request: RequestHash, response: Response)
    requires Scene(left, source, first, second, receipt) && ValidResponse(response)
    ensures var s := Run(Initial(left), Before(left, source, first, second, receipt, key, request, response));
      var record := Finished(ReservedRecord(key, request, 0), response, receipt);
      && s.store.dirs == map[key := Some(Json(record))] && s.store.claims == {}
      && s.store.disk == Splitting(left, first, second) && s.calls.Keys == {0}
  {
    var events := Calls(0, key, request, source, 7) + Completes(0, response, receipt);
    CompletedRun(left, source, receipt, key, request, response);
    RunConcat(Initial(left), events, [WriteDisk(Splitting(left, first, second))]);
    RunOne(Run(Initial(left), events), WriteDisk(Splitting(left, first, second)));
  }

  lemma RunOne(s: State, event: Event)
    ensures Run(s, [event]) == Step(s, event)
  {
    assert [event][..0] == [];
  }

  lemma SceneVerifies(left: Disk, source: Authority, first: Target, second: Target, receipt: Receipt, disk: Disk)
    requires Scene(left, source, first, second, receipt) && disk.roots == left.roots
    ensures HeaderVerifies(receipt, source, disk) && receipt.targets == [first, second]
    ensures TargetVerifies(Anchors(receipt, source), first, disk) <==> HoldsRecorded(first, disk)
    ensures TargetVerifies(Anchors(receipt, source), second, disk) <==> HoldsRecorded(second, disk)
    ensures VerifyPostImage(receipt, left)
  {
    var anchors := Anchors(receipt, source);
    assert VerifyBound(receipt, source, left);
    assert receipt.targets[0] == first && receipt.targets[1] == second;
    forall target | target in receipt.targets
      ensures (TargetVerifies(anchors, target, disk) <==> HoldsRecorded(target, disk)) && HoldsRecorded(target, left)
    {
      TargetVerifiesExactly(anchors, target, left);
      TargetVerifiesExactly(anchors, target, disk);
    }
    assert first in receipt.targets && second in receipt.targets;
  }

  /** The four actions of the second call's verification, with the disk each of them meets. */
  lemma VerificationActs(store: Store, call: Call, record: Record, d1: Disk, d2: Disk)
    requires call.phase == Returned(Replay(record)) && call.lane.Verified? && call.lane.source.Some?
    requires record.postImage.Some? && record.status == Completed
    requires record.response.Some? && ValidResponse(record.response.value)
    requires var receipt, source := record.postImage.value, call.lane.source.value;
      && HeaderVerifies(receipt, source, d1) && |receipt.targets| == 2
      && TargetVerifies(Anchors(receipt, source), receipt.targets[0], d1)
      && TargetVerifies(Anchors(receipt, source), receipt.targets[1], d2)
    ensures var on1, on2 := store.(disk := d1), store.(disk := d2);
      var one, two := call.(phase := Verifying(record, [d1])), call.(phase := Verifying(record, [d1, d2]));
      && ActOn(on1, call, Proceed) == (on1, call.(phase := Verifying(record, [])))
      && ActOn(on1, call.(phase := Verifying(record, [])), Proceed) == (on1, one)
      && ActOn(on2, one, Proceed) == (on2, two)
      && ActOn(on2, two, Proceed) ==
        (on2, call.(phase := Answered(Stored(record.response.value), record, [d1, d2])))
  {
    assert [] + [d1] == [d1] && [d1] + [d2] == [d1, d2];
  }

  /** The second call gets the stored response from one disk that lacks the second target and one that lacks the
      first. */
  lemma AgainRun(s: State, left: Disk, source: Authority, first: Target, second: Target, receipt: Receipt,
                 record: Record)
    requires Scene(left, source, first, second, receipt) && 1 !in s.calls
    requires s.store.disk == Splitting(left, first, second) && record.keyHash in s.store.dirs
    requires s.store.dirs[record.keyHash] == Some(Json(record)) && Loadable(Json(record), record.keyHash)
    requires record.postImage == Some(receipt) && record.status == Completed
    requires record.response.Some? && ValidResponse(record.response.value)
    ensures var d1, d2 := Splitting(left, first, second), Splitting(left, second, first);
      var t := Run(s, Again(left, source, first, second, record.keyHash, record.requestHash));
      && 1 in t.calls && t.calls[1].lane == Verified(Some(source))
      && t.calls[1].phase == Answered(Stored(record.response.value), record, [d1, d2])
  {
    var d1, d2 := Splitting(left, first, second), Splitting(left, second, first);
    var key, request := record.keyHash, record.requestHash;
    var call := Call(key, request, 0, Verified(Some(source)), Returned(Replay(record)), false, false);
    SceneActs(s.store, left, source, first, second, receipt, call, record);
    var one, two := call.(phase := Verifying(record, [d1])), call.(phase := Verifying(record, [d1, d2]));
    ReadsFirst(s, source, record, call, one);
    EndsAnswered(s, d2, one, two, call.(phase := Answered(Stored(record.response.value), record, [d1, d2])));
    RunConcat(s, Calls(1, key, request, source, 4), [WriteDisk(d2)] + Acts(1, 2));
    assert Again(left, source, first, second, key, request) ==
      Calls(1, key, request, source, 4) + ([WriteDisk(d2)] + Acts(1, 2));
  }

  lemma SceneActs(store: Store, left: Disk, source: Authority, first: Target, second: Target, receipt: Receipt,
                  call: Call, record: Record)
    requires Scene(left, source, first, second, receipt)
    requires call.phase == Returned(Replay(record)) && call.lane == Verified(Some(source))
    requires record.postImage == Some(receipt) && record.status == Completed
    requires record.response.Some? && ValidResponse(record.response.value)
    ensures var d1, d2 := Splitting(left, first, second), Splitting(left, second, first);
      var on1, on2 := store.(disk := d1), store.(disk := d2);
      var one, two := call.(phase := Verifying(record, [d1])), call.(phase := Verifying(record, [d1, d2]));
      && ActOn(on1, call, Proceed) == (on1, call.(phase := Verifying(record, [])))
      && ActOn(on1, call.(phase := Verifying(record, [])), Proceed) == (on1, one)
      && ActOn(on2, one, Proceed) == (on2, two)
      && ActOn(on2, two, Proceed) ==
        (on2, call.(phase := Answered(Stored(record.response.value), record, [d1, d2])))
  {
    var d1, d2 := Splitting(left, first, second), Splitting(left, second, first);
    SceneVerifies(left, source, first, second, receipt, d1);
    SceneVerifies(left, source, first, second, receipt, d2);
    VerificationActs(store, call, record, d1, d2);
  }

  /** The second call finds the record and reads the first target. */
  lemma ReadsFirst(s: State, source: Authority, record: Record, call: Call, one: Call)
    requires 1 !in s.calls && record.keyHash in s.store.dirs
    requires s.store.dirs[record.keyHash] == Some(Json(record)) && Loadable(Json(record), record.keyHash)
    requires call == Call(record.keyHash, record.requestHash, 0, Verified(Some(source)), Returned(Replay(record)),
                          false, false)
    requires ActOn(s.store, call, Proceed) == (s.store, call.(phase := Verifying(record, [])))
    requires ActOn(s.store, call.(phase := Verifying(record, [])), Proceed) == (s.store, one)
    ensures Run(s, Calls(1, record.keyHash, record.requestHash, source, 4)) == State(s.store, s.calls[1 := one])
  {
    UndisturbedRepeatReplays(s, 1, record.keyHash, record.requestHash, 0, Verified(Some(source)));
    StepActs(s, 1, s.store, call, Proceed, s.store, call.(phase := Verifying(record, [])));
    StepActs(s, 1, s.store, call.(phase := Verifying(record, [])), Proceed, s.store, one);
    AsksTwice(s, record.keyHash, record.requestHash, source, call, one);
  }

  lemma EndsAnswered(s: State, disk: Disk, one: Call, two: Call, answered: Call)
    requires var store := s.store.(disk := disk);
      ActOn(store, one, Proceed) == (store, two) && ActOn(store, two, Proceed) == (store, answered)
    ensures Run(State(s.store, s.calls[1 := one]), [WriteDisk(disk)] + Acts(1, 2)) ==
      State(s.store.(disk := disk), s.calls[1 := answered])
  {
    var store := s.store.(disk := disk);
    StepActs(s, 1, store, one, Proceed, store, two);
    StepActs(s, 1, store, two, Proceed, store, answered);
    RunThree(State(s.store, s.calls[1 := one]), WriteDisk(disk), Act(1, Proceed), Act(1, Proceed));
    assert [WriteDisk(disk)] + Acts(1, 2) == [WriteDisk(disk), Act(1, Proceed), Act(1, Proceed)];
  }

  /** Two more actions behind the first two. */
  lemma AsksTwice(s: State, key: KeyHash, request: RequestHash, source: Authority, call: Call, one: Call)
    requires var begun := Step(s, Begin(1, key, request, 0, Verified(Some(source))));
      && Undisturbed(begun, 1, 2) == State(s.store, s.calls[1 := call])
      && Step(Step(State(s.store, s.calls[1 := call]), Act(1, Proceed)), Act(1, Proceed)) ==
        State(s.store, s.calls[1 := one])
    ensures Run(s, Calls(1, key, request, source, 4)) == State(s.store, s.calls[1 := one])
  {
    var begun := Step(s, Begin(1, key, request, 0, Verified(Some(source))));
    CallsRun(s, 1, key, request, source, 4);
    assert Undisturbed(begun, 1, 3) == Step(Undisturbed(begun, 1, 2), Act(1, Proceed));
    assert Undisturbed(begun, 1, 4) == Step(Undisturbed(begun, 1, 3), Act(1, Proceed));
  }

  /** A run stays on the disks it starts on and is given. */
  lemma {:induction false} DiskIsOneOf(s: State, events: seq<Event>, disks: set<Disk>)
    requires s.store.disk in disks && forall n :: 0 <= n < |events| && events[n].WriteDisk? ==> events[n].disk in disks
    ensures Run(s, events).store.disk in disks
    decreases |events|
  {
    if events != [] {
      DiskIsOneOf(s, events[..|events| - 1], disks);
      StepDisk(Run(s, events[..|events| - 1]), events[|events| - 1]);
    }
  }

  /** The second call is answered from the store. */
  lemma StoryAnswers(left: Disk, source: Authority, first: Target, second: Target, receipt: Receipt, key: KeyHash,
                     request: RequestHash, response: Response)
    requires Scene(left, source, first, second, receipt) && ValidResponse(response)
    ensures var events := Before(left, source, first, second, receipt, key, request, response)
        + Again(left, source, first, second, key, request);
      var t := Run(Initial(left), events);
      AnsweredFromStore(t.calls, 1) && t.calls[1].phase.record.postImage == Some(receipt)
  {
    var before := Before(left, source, first, second, receipt, key, request, response);
    BeforeRun(left, source, first, second, receipt, key, request, response);
    AgainRun(Run(Initial(left), before), left, source, first, second, receipt,
             Finished(ReservedRecord(key, request, 0), response, receipt));
    RunConcat(Initial(left), before, Again(left, source, first, second, key, request));
  }

  /** From the second call's beginning on the receipt holds at no moment. */
  lemma StoryNeverHolds(left: Disk, source: Authority, first: Target, second: Target, receipt: Receipt, key: KeyHash,
                        request: RequestHash, response: Response)
    requires Scene(left, source, first, second, receipt) && ValidResponse(response)
    ensures var before := Before(left, source, first, second, receipt, key, request, response);
      var events := before + Again(left, source, first, second, key, request);
      forall n :: |before| <= n <= |events| ==> !VerifyPostImage(receipt, Run(Initial(left), events[..n]).store.disk)
  {
    var before := Before(left, source, first, second, receipt, key, request, response);
    var again := Again(left, source, first, second, key, request);
    var d1, d2 := Splitting(left, first, second), Splitting(left, second, first);
    BeforeRun(left, source, first, second, receipt, key, request, response);
    SceneVerifies(left, source, first, second, receipt, left);
    assert !HoldsRecorded(receipt.targets[1], d1) && !HoldsRecorded(receipt.targets[0], d2);
    AgainDisks(left, source, first, second, key, request);
    NeverHolds(Initial(left), before, again, receipt, {d1, d2});
  }

  lemma AgainDisks(left: Disk, source: Authority, first: Target, second: Target, key: KeyHash, request: RequestHash)
    ensures var again := Again(left, source, first, second, key, request);
      forall n :: 0 <= n < |again| && again[n].WriteDisk? ==> again[n].disk == Splitting(left, second, first)
  {
  }

  /** The targets are read one after the other, so a stored response can be got out of a receipt that held when the
      operation ended but at no moment from the second call's beginning on: reserve, complete, lose one target, ask
      again, and swap the targets between the two reads. */
  lemma TargetsNeedNotHoldTogether(left: Disk, source: Authority, first: Target, second: Target, receipt: Receipt,
                                   key: KeyHash, request: RequestHash, response: Response)
    requires Scene(left, source, first, second, receipt) && ValidResponse(response)
    ensures var before := Before(left, source, first, second, receipt, key, request, response);
      var events := before + Again(left, source, first, second, key, request);
      var t := Run(Initial(left), events);
      && AnsweredFromStore(t.calls, 1) && t.calls[1].phase.record.postImage == Some(receipt)
      && VerifyPostImage(receipt, left)
      && forall n :: |before| <= n <= |events| ==> !VerifyPostImage(receipt, At(left, events, n).store.disk)
  {
    SceneVerifies(left, source, first, second, receipt, left);
    StoryAnswers(left, source, first, second, receipt, key, request, response);
    StoryNeverHolds(left, source, first, second, receipt, key, request, response);
  }

  /** If no disk of the second part satisfies the receipt, it holds at no moment of that part. */
  lemma NeverHolds(s: State, before: seq<Event>, again: seq<Event>, receipt: Receipt, disks: set<Disk>)
    requires Run(s, before).store.disk in disks
    requires forall n :: 0 <= n < |again| && again[n].WriteDisk? ==> again[n].disk in disks
    requires forall disk :: disk in disks ==> !VerifyPostImage(receipt, disk)
    ensures forall n :: |before| <= n <= |before + again| ==>
      !VerifyPostImage(receipt, Run(s, (before + again)[..n]).store.disk)
  {
    forall n | |before| <= n <= |before + again|
      ensures !VerifyPostImage(receipt, Run(s, (before + again)[..n]).store.disk)
    {
      var rest := again[..n - |before|];
      TakeBehind(before, again, n);
      RunConcat(s, before, rest);
      DiskIsOneOf(Run(s, before), rest, disks);
    }
  }

  lemma TakeBehind(a: seq<Event>, b: seq<Event>, n: nat)
    requires |a| <= n <= |a + b|
    ensures (a + b)[..n] == a + b[..n - |a|]
  {
  }

  lemma OneAnchor(anchor: Authority, path: Path)
    requires Above(anchor.root, path)
    ensures DeepestOwner([anchor], path) == Some(anchor)
  {
    assert [anchor][..0] == [];
    assert DeepestOwner([anchor][..0], path) == None;
  }

  /** Any two different regular files beneath one root, with the receipt bound to them, make such a scene. */
  lemma FilesMakeScene(left: Disk, source: Authority, a: Path, b: Path)
    requires Standing(source, left) && Above(source.root, a) && Above(source.root, b) && a != b
    requires a in left.files && b in left.files && left.files[a].Regular? && left.files[b].Regular?
    ensures var first := Target(a, Some(Sha256(left.files[a].bytes)));
      var second := Target(b, Some(Sha256(left.files[b].bytes)));
      Scene(left, source, first, second, Receipt([first, second], SourceBinding(source), []))
  {
    var first := Target(a, Some(Sha256(left.files[a].bytes)));
    var second := Target(b, Some(Sha256(left.files[b].bytes)));
    var receipt := Receipt([first, second], SourceBinding(source), []);
    assert Anchors(receipt, source) == [source];
    OneAnchor(source, a);
    OneAnchor(source, b);
    TargetVerifiesExactly([source], first, left);
    TargetVerifiesExactly([source], second, left);
    assert VerifyBound(receipt, source, left);
    BindsAlone(Receipt([first, second], None, []), source, left, receipt);
  }

  lemma BindsAlone(captured: Receipt, source: Authority, disk: Disk, bound: Receipt)
    requires SourceBinding(source).Some? && bound == Receipt(captured.targets, SourceBinding(source), [])
    requires VerifyBound(bound, source, disk)
    ensures BindToSources(captured, source, [], disk) == Some(bound)
  {
  }

  /** Such files: one byte each beneath one root. */
  lemma SceneExists()
    ensures var root: Path := ["project"];
      var left := Disk(map[root + ["a"] := Regular([1]), root + ["b"] := Regular([2])], map[root := 7]);
      var first, second := Target(root + ["a"], Some(Sha256([1]))), Target(root + ["b"], Some(Sha256([2])));
      Scene(left, Authority(root, Some(7)), first, second, Receipt([first, second], Some(Binding(root, 7)), []))
  {
    var root: Path := ["project"];
    var a, b := root + ["a"], root + ["b"];
    assert a[1] == "a" && b[1] == "b" && a != b;
    var left := Disk(map[a := Regular([1]), b := Regular([2])], map[root := 7]);
    FilesMakeScene(left, Authority(root, Some(7)), a, b);
  }
}
