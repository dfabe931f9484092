/** The promises of the replay store over every run: one first execution per key, failing closed after a crash,
    complete records at every moment, and a monotone life cycle. */
module ReplayTheorems {
  import opened Common
  import opened PostImage
  import opened ReplayRecord
  import opened ReplayProtocol
  import opened ReplaySafety

  /** One winner: over any number of calls, interleavings, crashes and tampered record files, at most one call per key
      ever returns FirstExecution. */
  lemma AtMostOneFirstExecution(disk: Disk, events: seq<Event>, i: CallId, j: CallId)
    requires var calls := Run(Initial(disk), events).calls;
      i in calls && j in calls && calls[i].executesFirst && calls[j].executesFirst && calls[i].key == calls[j].key
    ensures i == j
  {
    RunKeepsInv(Initial(disk), events);
    var s := Run(Initial(disk), events);
    assert CallInv(s.store, s.calls[i]) && CallInv(s.store, s.calls[j]);
    assert i != j ==> Exclusive(s.calls[i], s.calls[j]);
  }

  /** No call can still publish `key`: it has a directory, or a claim marker that no live call owns. */
  predicate Sealed(s: State, key: KeyHash) {
    key in s.store.dirs ||
    (key in s.store.claims && forall id :: id in s.calls && s.calls[id].key == key ==> !Claiming(s.calls[id]))
  }

  /** From `s` to `t` the key stays sealed, gets no directory it did not have and gains no publisher. */
  predicate StaysSealed(s: State, t: State, key: KeyHash) {
    && Sealed(t, key)
    && (key in t.store.dirs ==> key in s.store.dirs)
    && forall id :: id in t.calls && t.calls[id].key == key && t.calls[id].published ==>
      id in s.calls && s.calls[id].key == key && s.calls[id].published
  }

  lemma ActStaysSealed(s: State, id: CallId, choice: Choice, key: KeyHash)
    requires Inv(s) && Sealed(s, key) && id in s.calls
    ensures StaysSealed(s, Step(s, Act(id, choice)), key)
  {
    ActEffect(s.store, s.calls[id], choice);
    assert CallInv(s.store, s.calls[id]);
  }

  lemma StepStaysSealed(s: State, event: Event, key: KeyHash)
    requires Inv(s) && Sealed(s, key)
    ensures StaysSealed(s, Step(s, event), key)
  {
    if event.Act? && event.id in s.calls {
      ActStaysSealed(s, event.id, event.choice, key);
    }
  }

  lemma {:induction false} StaysSealedForever(s: State, events: seq<Event>, key: KeyHash)
    requires Inv(s) && Sealed(s, key)
    ensures StaysSealed(s, Run(s, events), key)
    decreases |events|
  {
    if events != [] {
      var prefix := events[..|events| - 1];
      StaysSealedForever(s, prefix, key);
      RunKeepsInv(s, prefix);
      StepStaysSealed(Run(s, prefix), events[|events| - 1], key);
    }
  }

  /** A sealed key has no first execution but the one that was already published. */
  lemma SealedKeyNeverExecutesAgain(s: State, events: seq<Event>, key: KeyHash, id: CallId)
    requires Inv(s) && Sealed(s, key)
    requires var calls := Run(s, events).calls; id in calls && calls[id].key == key && calls[id].executesFirst
    ensures id in s.calls && s.calls[id].key == key && s.calls[id].published
  {
    StaysSealedForever(s, events, key);
    RunKeepsInv(s, events);
    var t := Run(s, events);
    assert CallInv(t.store, t.calls[id]);
  }

  /** Failing closed: when the owner of a claim crashes before its rename, the key is never published and no call on
      it ever executes first, whatever happens afterwards. */
  lemma CrashedClaimFailsClosed(disk: Disk, before: seq<Event>, id: CallId, after: seq<Event>)
    requires var s := Run(Initial(disk), before);
      id in s.calls && Claiming(s.calls[id]) && s.calls[id].key !in s.store.dirs
    ensures var key := Run(Initial(disk), before).calls[id].key;
      var t := Run(Step(Run(Initial(disk), before), Crash(id)), after);
      && key !in t.store.dirs
      && forall other :: other in t.calls && t.calls[other].key == key ==> !t.calls[other].executesFirst
  {
    RunKeepsInv(Initial(disk), before);
    var s := Run(Initial(disk), before);
    var key := s.calls[id].key;
    var t := Run(Step(s, Crash(id)), after);
    CrashSealsClaim(s, id);
    StaysSealedForever(Step(s, Crash(id)), after, key);
    forall other | other in t.calls && t.calls[other].key == key
      ensures !t.calls[other].executesFirst
    {
      if t.calls[other].executesFirst {
        SealedKeyNeverExecutesAgain(Step(s, Crash(id)), after, key, other);
        assert false;
      }
    }
  }

  lemma CrashSealsClaim(s: State, id: CallId)
    requires Inv(s) && id in s.calls && Claiming(s.calls[id]) && s.calls[id].key !in s.store.dirs
    ensures var key, t := s.calls[id].key, Step(s, Crash(id));
      && Inv(t) && Sealed(t, key) && key !in t.store.dirs
      && forall other :: other in t.calls && t.calls[other].key == key ==> !t.calls[other].published
  {
    StepKeepsInv(s, Crash(id));
    assert CallInv(s.store, s.calls[id]);
    var key, t := s.calls[id].key, Step(s, Crash(id));
    forall other | other in t.calls && t.calls[other].key == key
      ensures !Claiming(t.calls[other]) && !t.calls[other].published
    {
      assert CallInv(s.store, s.calls[other]);
      assert other != id ==> Exclusive(s.calls[id], s.calls[other]);
    }
  }

  /** Once a key directory exists, only the call that published it can be its first execution. */
  lemma ExistingRecordNeverExecutesAgain(disk: Disk, before: seq<Event>, after: seq<Event>, id: CallId)
    requires var s := Run(Initial(disk), before);
      var t := Run(s, after);
      id in t.calls && t.calls[id].key in s.store.dirs && t.calls[id].executesFirst
    ensures var s := Run(Initial(disk), before); id in s.calls && s.calls[id].published
  {
    RunKeepsInv(Initial(disk), before);
    var s := Run(Initial(disk), before);
    SealedKeyNeverExecutesAgain(s, after, Run(s, after).calls[id].key, id);
  }

  lemma ActPublishes(store: Store, call: Call, choice: Choice, key: KeyHash)
    requires CallInv(store, call) && key !in store.dirs && key in ActOn(store, call, choice).0.dirs
    ensures call.key == key && ActOn(store, call, choice).1.published
  {
  }

  predicate Published(calls: map<CallId, Call>, key: KeyHash) {
    exists id :: id in calls && calls[id].published && calls[id].key == key
  }

  lemma StepKeepsPublisher(s: State, event: Event, key: KeyHash)
    requires Published(s.calls, key)
    ensures Published(Step(s, event).calls, key)
  {
    var id :| id in s.calls && s.calls[id].published && s.calls[id].key == key;
    if event.Act? && event.id == id {
      ActFrame(s.store, s.calls[id], event.choice);
    }
    var calls := Step(s, event).calls;
    assert id in calls && calls[id].published && calls[id].key == key;
  }

  lemma StepPublishes(s: State, event: Event, key: KeyHash)
    requires Inv(s) && key !in s.store.dirs && key in Step(s, event).store.dirs
    ensures Published(Step(s, event).calls, key)
  {
    assert event.Act? && event.id in s.calls && CallInv(s.store, s.calls[event.id]);
    ActFrame(s.store, s.calls[event.id], event.choice);
    ActPublishes(s.store, s.calls[event.id], event.choice, key);
    assert event.id in Step(s, event).calls;
  }

  /** Every key directory was published by a call that is still on record. */
  lemma {:induction false} PublisherExists(disk: Disk, events: seq<Event>, key: KeyHash)
    requires key in Run(Initial(disk), events).store.dirs
    ensures Published(Run(Initial(disk), events).calls, key)
    decreases |events|
  {
    if events != [] {
      var prefix, event := events[..|events| - 1], events[|events| - 1];
      var s := Run(Initial(disk), prefix);
      if key in s.store.dirs {
        PublisherExists(disk, prefix, key);
        StepKeepsPublisher(s, event, key);
      } else {
        RunKeepsInv(Initial(disk), prefix);
        StepPublishes(s, event, key);
      }
    }
  }

  /** At every moment of every run, a key directory nobody tampered with has a complete, loadable record with the
      request hash of the one call that published it. */
  lemma PublishedRecordIsComplete(disk: Disk, events: seq<Event>, key: KeyHash)
    requires var store := Run(Initial(disk), events).store; key in store.dirs && key !in store.tampered
    ensures var s := Run(Initial(disk), events);
      && s.store.dirs[key].Some? && Loadable(s.store.dirs[key].value, key)
      && WellFormed(s.store.dirs[key].value.record)
      && exists id ::
        id in s.calls && s.calls[id].published && s.calls[id].key == key
        && s.calls[id].request == s.store.dirs[key].value.record.requestHash
  {
    RunKeepsInv(Initial(disk), events);
    PublisherExists(disk, events, key);
    var s := Run(Initial(disk), events);
    assert Intact(s.store, key);
    var id :| id in s.calls && s.calls[id].published && s.calls[id].key == key;
    assert CallInv(s.store, s.calls[id]);
  }

  /** A reader of an untampered key never meets a missing or corrupt record, is refused for a conflict only when the
      published request differs from its own, and replays only a record of its own request. */
  lemma ReadersSeeWholeRecords(disk: Disk, events: seq<Event>, id: CallId)
    requires var s := Run(Initial(disk), events); id in s.calls && s.calls[id].key !in s.store.tampered
    ensures var s := Run(Initial(disk), events);
      var call := s.calls[id];
      && call.phase != Returned(Refused(IncompleteReservation))
      && call.phase != Returned(Refused(CorruptRecord))
      && call.phase != Returned(Refused(CorruptRecordQuarantined))
      && (call.phase == Returned(Refused(Conflict)) ==>
        call.key in s.store.origin && s.store.origin[call.key].requestHash != call.request)
      && (call.phase.Returned? && call.phase.outcome.Replay? ==>
        && call.key in s.store.origin && call.request == s.store.origin[call.key].requestHash
        && call.phase.outcome.record.requestHash == call.request)
  {
    RunKeepsInv(Initial(disk), events);
    var s := Run(Initial(disk), events);
    assert CallInv(s.store, s.calls[id]);
  }

  /** The reflexive closure of the life cycle. */
  predicate Reaches(before: Status, after: Status) {
    before == after || before == Reserved || (before == Started && after in {Completed, Uncertain})
  }

  /** Over any stretch of a run, an untampered record moves only forward along the life cycle, keeps its key hash,
      request hash and creation time, and never changes again once terminal. */
  lemma {:induction false} RecordLifeCycle(s: State, events: seq<Event>, key: KeyHash)
    requires Inv(s) && key in s.store.dirs && key !in Run(s, events).store.tampered
    ensures var t := Run(s, events);
      && Intact(s.store, key) && Intact(t.store, key)
      && var before, after := s.store.dirs[key].value.record, t.store.dirs[key].value.record;
        && SameIdentity(before, after)
        && Reaches(before.status, after.status)
        && (Terminal(before.status) ==> after == before)
        && (after.postImage.Some? ==>
          after.status == Completed && after.response.Some? && after.postImage.value.targets != [])
    decreases |events|
  {
    RunKeepsInv(s, events);
    if events == [] {
      assert Intact(s.store, key);
    } else {
      var prefix := events[..|events| - 1];
      RunKeepsInv(s, prefix);
      var m := Run(s, prefix);
      StepKeepsInv(m, events[|events| - 1]);
      RecordLifeCycle(s, prefix, key);
      assert Intact(Run(s, events).store, key);
    }
  }

  function Repeat<T>(step: T -> T, x: T, n: nat): T {
    if n == 0 then x else step(Repeat(step, x, n - 1))
  }

  lemma {:induction false} RepeatAgain<T>(step: T -> T, x: T, m: nat, n: nat)
    ensures Repeat(step, Repeat(step, x, m), n) == Repeat(step, x, m + n)
  {
    if n > 0 {
      RepeatAgain(step, x, m, n - 1);
    }
  }

  lemma {:induction false} RepeatStays<T>(step: T -> T, x: T, n: nat)
    requires step(x) == x
    ensures Repeat(step, x, n) == x
  {
    if n > 0 {
      RepeatStays(step, x, n - 1);
    }
  }

  ghost predicate Maps<S, T>(f: S -> S, g: T -> T, image: T -> S, x: T) {
    f(image(x)) == image(g(x))
  }

  lemma {:induction false} RepeatMapped<S, T(!new)>(f: S -> S, g: T -> T, image: T -> S, x: T, n: nat)
    requires forall y :: Maps(f, g, image, y)
    ensures Repeat(f, image(x), n) == image(Repeat(g, x, n))
  {
    if n > 0 {
      RepeatMapped(f, g, image, x, n - 1);
      assert Maps(f, g, image, Repeat(g, x, n - 1));
    }
  }

  function Acting(id: CallId): State -> State {
    (s: State) => Step(s, Act(id, Proceed))
  }

  /** `n` undisturbed steps of one call. */
  function Undisturbed(s: State, id: CallId, n: nat): State {
    Repeat(Acting(id), s, n)
  }

  function Proceeding(): ((Store, Call)) -> (Store, Call) {
    (x: (Store, Call)) => ActOn(x.0, x.1, Proceed)
  }

  /** A call and the store after `n` undisturbed steps. */
  function Alone(store: Store, call: Call, n: nat): (Store, Call) {
    Repeat(Proceeding(), (store, call), n)
  }

  lemma StepAlone(s: State, id: CallId, store: Store, call: Call)
    ensures Step(State(store, s.calls[id := call]), Act(id, Proceed)) ==
      State(ActOn(store, call, Proceed).0, s.calls[id := ActOn(store, call, Proceed).1])
  {
    var next := ActOn(store, call, Proceed).1;
    assert s.calls[id := call][id := next] == s.calls[id := next];
  }

  lemma UndisturbedIsAlone(s: State, id: CallId, n: nat)
    requires id in s.calls
    ensures var (store, call) := Alone(s.store, s.calls[id], n);
      Undisturbed(s, id, n) == State(store, s.calls[id := call])
  {
    var image := (x: (Store, Call)) => State(x.0, s.calls[id := x.1]);
    forall x: (Store, Call) ensures Maps(Acting(id), Proceeding(), image, x) {
      StepAlone(s, id, x.0, x.1);
    }
    RepeatMapped(Acting(id), Proceeding(), image, (s.store, s.calls[id]), n);
    assert s.calls[id := s.calls[id]] == s.calls;
  }

  /** Without interference a call on a fresh key publishes its reservation, returns FirstExecution and leaves no claim
      marker; nothing else changes. */
  lemma UndisturbedCallExecutesFirst(s: State, id: CallId, key: KeyHash, request: RequestHash, now: nat, lane: Lane)
    requires id !in s.calls && key !in s.store.dirs && key !in s.store.claims
    ensures var record := Record(1, key, request, Reserved, now, now, None, None);
      Undisturbed(Step(s, Begin(id, key, request, now, lane)), id, 7) == State(
        s.store.(dirs := s.store.dirs[key := Some(Json(record))], origin := s.store.origin[key := record]),
        s.calls[id := Call(key, request, now, lane, Executing, true, true)])
  {
    var call := Call(key, request, now, lane, Entering, false, false);
    UndisturbedIsAlone(Step(s, Begin(id, key, request, now, lane)), id, 7);
    FreshAlone(s.store, call);
    ReplacedCall(s.calls, id, call, call.(phase := Executing, published := true, executesFirst := true));
  }

  lemma NextAlone(store: Store, call: Call, n: nat, before: (Store, Call), after: (Store, Call))
    requires Alone(store, call, n) == before && ActOn(before.0, before.1, Proceed) == after
    ensures Alone(store, call, n + 1) == after
  {
  }

  lemma FreshActs(store: Store, call: Call)
    requires call.phase == Entering && call.key !in store.dirs && call.key !in store.claims
    ensures var claimed := store.(claims := store.claims + {call.key});
      && ActOn(store, call, Proceed) == (store, call.(phase := Staging))
      && ActOn(store, call.(phase := Staging), Proceed) == (store, call.(phase := Staged))
      && ActOn(store, call.(phase := Staged), Proceed) == (claimed, call.(phase := ClaimCreated))
      && ActOn(claimed, call.(phase := ClaimCreated), Proceed) == (claimed, call.(phase := Claimed))
      && ActOn(claimed, call.(phase := Claimed), Proceed) == (claimed, call.(phase := Renaming))
  {
  }

  lemma FreshPublishes(store: Store, call: Call)
    requires call.phase == Renaming && call.key !in store.dirs && call.key !in store.claims
    ensures var claimed := store.(claims := store.claims + {call.key});
      var record := Record(1, call.key, call.request, Reserved, call.now, call.now, None, None);
      var dirs, origin := store.dirs[call.key := Some(Json(record))], store.origin[call.key := record];
      var dropping := call.(phase := Dropping(FirstExecution(record)), published := true);
      && ActOn(claimed, call, Proceed) == (claimed.(dirs := dirs, origin := origin), dropping)
      && ActOn(claimed.(dirs := dirs, origin := origin), dropping, Proceed) ==
        (store.(dirs := dirs, origin := origin), call.(phase := Executing, published := true, executesFirst := true))
  {
    assert store.claims + {call.key} - {call.key} == store.claims;
  }

  lemma FreshAlone(store: Store, call: Call)
    requires call.phase == Entering && call.key !in store.dirs && call.key !in store.claims
    ensures var record := Record(1, call.key, call.request, Reserved, call.now, call.now, None, None);
      Alone(store, call, 7) == (
        store.(dirs := store.dirs[call.key := Some(Json(record))], origin := store.origin[call.key := record]),
        call.(phase := Executing, published := true, executesFirst := true))
  {
    var claimed := store.(claims := store.claims + {call.key});
    FreshActs(store, call);
    FreshPublishes(store, call.(phase := Renaming));
    NextAlone(store, call, 0, (store, call), (store, call.(phase := Staging)));
    NextAlone(store, call, 1, (store, call.(phase := Staging)), (store, call.(phase := Staged)));
    NextAlone(store, call, 2, (store, call.(phase := Staged)), (claimed, call.(phase := ClaimCreated)));
    NextAlone(store, call, 3, (claimed, call.(phase := ClaimCreated)), (claimed, call.(phase := Claimed)));
    NextAlone(store, call, 4, (claimed, call.(phase := Claimed)), (claimed, call.(phase := Renaming)));
    var published := ActOn(claimed, call.(phase := Renaming), Proceed);
    NextAlone(store, call, 5, (claimed, call.(phase := Renaming)), published);
    NextAlone(store, call, 6, published, ActOn(published.0, published.1, Proceed));
  }

  lemma ReplacedCall(calls: map<CallId, Call>, id: CallId, call: Call, next: Call)
    ensures calls[id := call][id := next] == calls[id := next]
  {
  }

  /** A record in JSON, of the current schema and under its own key. */
  predicate Usable(file: RecordFile, key: KeyHash) {
    file.Json? && file.record.schemaVersion == 1 && file.record.keyHash == key
  }

  /** A rename never replaces a record, whatever the state it is tried in. */
  lemma RenameKeepsRecords(store: Store, call: Call, choice: Choice)
    requires call.phase == Renaming && call.key in store.dirs && store.dirs[call.key].Some?
    ensures ActOn(store, call, choice) == (store, call.(phase := Reading(UnderClaim)))
  {
  }

  /** A call meets a directory whose record file cannot be used. One without a record file is an incomplete
      reservation; one whose record cannot be loaded is moved to quarantine, and the directory stays. */
  lemma UndisturbedCallFailsClosed(s: State, id: CallId, key: KeyHash, request: RequestHash, now: nat, lane: Lane)
    requires id !in s.calls && key in s.store.dirs
    requires s.store.dirs[key].Some? ==> !Usable(s.store.dirs[key].value, key)
    ensures var (store, error) :=
        if s.store.dirs[key].None? then (s.store, IncompleteReservation)
        else (s.store.(dirs := s.store.dirs[key := None], quarantine := s.store.quarantine + [s.store.dirs[key].value]),
              CorruptRecordQuarantined);
      Undisturbed(Step(s, Begin(id, key, request, now, lane)), id, 3) ==
        State(store, s.calls[id := Call(key, request, now, lane, Returned(Refused(error)), false, false)])
  {
    var call := Call(key, request, now, lane, Entering, false, false);
    UndisturbedIsAlone(Step(s, Begin(id, key, request, now, lane)), id, 3);
    assert Alone(s.store, call, 1) == (s.store, call.(phase := Reading(AtEntry)));
    assert Alone(s.store, call, 2) == (s.store, Read(s.store, call.(phase := Reading(AtEntry)), AtEntry, Proceed));
    ReplacedCall(s.calls, id, call, Alone(s.store, call, 3).1);
  }

  /** A claim marker without a directory: a call waits behind it, and gives up with Publishing. */
  lemma UndisturbedCallWaits(s: State, id: CallId, key: KeyHash, request: RequestHash, now: nat, lane: Lane)
    requires id !in s.calls && key !in s.store.dirs && key in s.store.claims
    ensures var call := Call(key, request, now, lane, Waiting, false, false);
      var waiting := Undisturbed(Step(s, Begin(id, key, request, now, lane)), id, 3);
      && waiting == State(s.store, s.calls[id := call])
      && Step(waiting, Act(id, Proceed)) == waiting
      && Step(waiting, Act(id, GiveUp)) == State(s.store, s.calls[id := call.(phase := Returned(Refused(Publishing)))])
  {
    var call := Call(key, request, now, lane, Entering, false, false);
    UndisturbedIsAlone(Step(s, Begin(id, key, request, now, lane)), id, 3);
    assert Alone(s.store, call, 1) == (s.store, call.(phase := Staging));
    assert Alone(s.store, call, 2) == (s.store, call.(phase := Staged));
    ReplacedCall(s.calls, id, call, call.(phase := Waiting));
    ReplacedCall(s.calls, id, call.(phase := Waiting), call.(phase := Waiting));
    ReplacedCall(s.calls, id, call.(phase := Waiting), call.(phase := Returned(Refused(Publishing))));
  }

  /** A call that waits gets the record once it is published, or a conflict for another request. */
  lemma WaiterReplays(store: Store, call: Call)
    requires call.phase == Waiting && call.key in store.dirs && store.dirs[call.key].Some?
    requires Usable(store.dirs[call.key].value, call.key)
    ensures var record := store.dirs[call.key].value.record;
      var outcome := if record.requestHash == call.request then Replay(record) else Refused(Conflict);
      Alone(store, call, 2) == (store, call.(phase := Returned(outcome)))
  {
    NextAlone(store, call, 0, (store, call), (store, call.(phase := Reading(AfterWait))));
    var read := Read(store, call.(phase := Reading(AfterWait)), AfterWait, Proceed);
    NextAlone(store, call, 1, (store, call.(phase := Reading(AfterWait))), (store, read));
  }

  /** A call that finds a directory under its own claim takes the record from there and removes its marker. */
  lemma ClaimantReplays(store: Store, call: Call)
    requires call.phase == Claimed && call.key in store.dirs && store.dirs[call.key].Some?
    requires Usable(store.dirs[call.key].value, call.key)
    ensures var record := store.dirs[call.key].value.record;
      var outcome := if record.requestHash == call.request then Replay(record) else Refused(Conflict);
      Alone(store, call, 3) == (store.(claims := store.claims - {call.key}), call.(phase := Returned(outcome)))
  {
    var reading := call.(phase := Reading(UnderClaim));
    NextAlone(store, call, 0, (store, call), (store, reading));
    NextAlone(store, call, 1, (store, reading), (store, Read(store, reading, UnderClaim, Proceed)));
    var dropping := Read(store, reading, UnderClaim, Proceed);
    NextAlone(store, call, 2, (store, dropping), ActOn(store, dropping, Proceed));
  }

  /** The errors a call may answer a failed file-system action with. */
  predicate FailsWithIo(call: Call, next: Call) {
    match call.phase
    case Staging => next.phase == Returned(Refused(Io))
    case Staged => next.phase == Returned(Refused(Io))
    case ClaimCreated => next.phase == Returned(Refused(Io))
    case Reading(purpose) =>
      next.phase == if purpose.UnderClaim? then Dropping(Refused(Io))
                    else if purpose.ForUpdate? then Executing
                    else Returned(Refused(Io))
    case Quarantining(purpose) =>
      next.phase == if purpose.UnderClaim? then Dropping(Refused(CorruptRecord))
                    else if purpose.ForUpdate? then Executing
                    else Returned(Refused(CorruptRecord))
    case Saving(_, _) => next.phase == Executing
    case _ => true
  }

  /** A file-system action that fails changes no shared file, and the call says so or goes on executing. */
  lemma FailureWritesNothing(store: Store, call: Call)
    ensures var (after, next) := ActOn(store, call, IoFails); after == store && FailsWithIo(call, next)
  {
    if call.phase.Reading? {
      ReadFrame(store, call, call.phase.purpose, IoFails);
    }
  }

  /** A probe of a key without a directory says that it is being published exactly while there is a claim marker, and
      that there is no record otherwise. */
  lemma UndisturbedProbeFindsNone(s: State, id: CallId, key: KeyHash, request: RequestHash, lane: Lane)
    requires id !in s.calls && key !in s.store.dirs
    ensures var outcome := if key in s.store.claims then Refused(Publishing) else NoRecord;
      Undisturbed(Step(s, Probe(id, key, request, lane)), id, 1) ==
        State(s.store, s.calls[id := Call(key, request, 0, lane, Returned(outcome), false, false)])
  {
    var call := Call(key, request, 0, lane, ProbeEntering, false, false);
    UndisturbedIsAlone(Step(s, Probe(id, key, request, lane)), id, 1);
    assert Alone(s.store, call, 0) == (s.store, call);
    ReplacedCall(s.calls, id, call, Alone(s.store, call, 1).1);
  }

  /** A probe of a key with a record gets that record, or a conflict for another request, and changes nothing. */
  lemma UndisturbedProbeReplays(s: State, id: CallId, key: KeyHash, request: RequestHash, lane: Lane)
    requires id !in s.calls && key in s.store.dirs && s.store.dirs[key].Some? && Usable(s.store.dirs[key].value, key)
    ensures var record := s.store.dirs[key].value.record;
      var outcome := if record.requestHash == request then Replay(record) else Refused(Conflict);
      Undisturbed(Step(s, Probe(id, key, request, lane)), id, 2) ==
        State(s.store, s.calls[id := Call(key, request, 0, lane, Returned(outcome), false, false)])
  {
    var call := Call(key, request, 0, lane, ProbeEntering, false, false);
    UndisturbedIsAlone(Step(s, Probe(id, key, request, lane)), id, 2);
    assert Alone(s.store, call, 1) == (s.store, call.(phase := Reading(AtProbe)));
    ReplacedCall(s.calls, id, call, Alone(s.store, call, 2).1);
  }

  /** A repeated request gets the stored record, a different one a conflict, and neither changes the store. */
  lemma UndisturbedRepeatReplays(s: State, id: CallId, key: KeyHash, request: RequestHash, now: nat, lane: Lane)
    requires id !in s.calls && key in s.store.dirs && s.store.dirs[key].Some? && Usable(s.store.dirs[key].value, key)
    ensures var record := s.store.dirs[key].value.record;
      var outcome := if record.requestHash == request then Replay(record) else Refused(Conflict);
      Undisturbed(Step(s, Begin(id, key, request, now, lane)), id, 2) ==
        State(s.store, s.calls[id := Call(key, request, now, lane, Returned(outcome), false, false)])
  {
    var call := Call(key, request, now, lane, Entering, false, false);
    UndisturbedIsAlone(Step(s, Begin(id, key, request, now, lane)), id, 2);
    assert Alone(s.store, call, 1) == (s.store, call.(phase := Reading(AtEntry)));
    ReplacedCall(s.calls, id, call, Alone(s.store, call, 2).1);
  }
}
