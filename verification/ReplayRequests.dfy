/** What a replayed answer says about the requests of two callers of one key. */
module ReplayRequests {
  import opened Common
  import opened CanonicalJson
  import opened PostImage
  import opened ReplayProtocol
  import opened ReplaySafety
  import opened ReplayTheorems
  import opened RequestFrame

  /** A call made for a request to a tool. */
  predicate Asks(call: Call, tool: string, request: Json) {
    HashToolRequest(tool, request) == Ok(call.request)
  }

  /** The record a key was published with holds the request hash of the call that published it. */
  lemma PublisherKeepsRequest(disk: Disk, events: seq<Event>, publisher: CallId)
    requires var calls := Run(Initial(disk), events).calls; publisher in calls && calls[publisher].published
    ensures var s := Run(Initial(disk), events);
      var call := s.calls[publisher];
      call.key in s.store.origin && s.store.origin[call.key].requestHash == call.request
  {
    RunKeepsInv(Initial(disk), events);
    var s := Run(Initial(disk), events);
    assert CallInv(s.store, s.calls[publisher]);
  }

  /** Over every run, a call on an untampered key replays a record only for the request it was published for, up to
      member order, and is refused for a conflict only for a different one. */
  lemma ReplayAnswersTheSameRequest(disk: Disk, events: seq<Event>, id: CallId, publisher: CallId, tool: string,
                                    request: Json, tool': string, request': Json)
    requires var s := Run(Initial(disk), events);
      && id in s.calls && publisher in s.calls && s.calls[publisher].published
      && s.calls[id].key == s.calls[publisher].key && s.calls[id].key !in s.store.tampered
    requires var calls := Run(Initial(disk), events).calls;
      Asks(calls[id], tool, request) && Asks(calls[publisher], tool', request')
    requires CanonicalJson.WellFormed(request) && CanonicalJson.WellFormed(request')
    ensures var phase := Run(Initial(disk), events).calls[id].phase;
      && (phase.Returned? && phase.outcome.Replay? ==> tool == tool' && SameUpToOrder(request, request'))
      && (phase == Returned(Refused(Conflict)) ==> tool != tool' || !SameUpToOrder(request, request'))
  {
    var s := Run(Initial(disk), events);
    ReadersSeeWholeRecords(disk, events, id);
    PublisherKeepsRequest(disk, events, publisher);
    RequestHashExact(tool, request, tool', request');
  }
}
