/** Scope claims of cooperating instances: who may write beneath which paths. */
module ScopeClaims {
  import opened Common

  type Scope = seq<string>

  /** An id is a plain file name, so that different ids have different files. */
  type Id = id: string | '/' !in id && '\\' !in id

  datatype Instance = Instance(pid: int, lastSeen: int)

  /** The instance files and the claim files, by the id in their names. */
  datatype State = State(instances: map<Id, Instance>, claims: map<Id, Scope>)

  const READ_ONLY: string := "(read-only)"

  predicate EndsWith(s: string, suffix: string) {
    |suffix| <= |s| && s[|s| - |suffix|..] == suffix
  }

  predicate Writable(entry: string) {
    !EndsWith(entry, READ_ONLY)
  }

  /** Directory listings leave out names that begin with a dot, among them `.json`, the file of the empty id. */
  predicate Visible(id: Id) {
    id != "" && id[0] != '.'
  }

  // ---- Overlap ------------------------------------------------------------

  predicate Meet(a: string, b: string) {
    a <= b || b <= a
  }

  /** A writable entry of one scope is a prefix of a writable entry of the other; `trim` removes outer blanks. */
  predicate Overlap(trim: string -> string, one: Scope, two: Scope) {
    exists i, j :: 0 <= i < |one| && 0 <= j < |two| && Clash(trim, one[i], two[j])
  }

  predicate Clash(trim: string -> string, a: string, b: string) {
    Writable(a) && Writable(b) && Meet(trim(a), trim(b))
  }

  /** `scopesOverlap`. */
  method ScopesOverlap(trim: string -> string, one: Scope, two: Scope) returns (overlap: bool)
    ensures overlap == Overlap(trim, one, two)
  {
    for i := 0 to |one|
      invariant forall k, j :: 0 <= k < i && 0 <= j < |two| ==> !Clash(trim, one[k], two[j])
    {
      if !Writable(one[i]) { continue; }
      var a := trim(one[i]);
      for j := 0 to |two|
        invariant forall k :: 0 <= k < j ==> !Clash(trim, one[i], two[k])
      {
        if !Writable(two[j]) { continue; }
        var b := trim(two[j]);
        if b <= a || a <= b {
          assert Clash(trim, one[i], two[j]);
          return true;
        }
      }
    }
    return false;
  }

  /** A writable entry of the scope is a prefix of the path. */
  ghost predicate Covers(trim: string -> string, scope: Scope, path: string) {
    exists i :: 0 <= i < |scope| && Writable(scope[i]) && trim(scope[i]) <= path
  }

  lemma PrefixesMeet(a: string, b: string, path: string)
    requires a <= path && b <= path
    ensures Meet(a, b)
  {
    assert a == path[..|a|] && b == path[..|b|];
    if |a| <= |b| {
      assert a == b[..|a|];
    } else {
      assert b == a[..|b|];
    }
  }

  /** Two scopes overlap if and only if some path is covered by both. */
  lemma OverlapExactly(trim: string -> string, one: Scope, two: Scope)
    ensures Overlap(trim, one, two) <==> exists path :: Covers(trim, one, path) && Covers(trim, two, path)
  {
    if Overlap(trim, one, two) {
      var i, j :| 0 <= i < |one| && 0 <= j < |two| && Clash(trim, one[i], two[j]);
      var path := if trim(one[i]) <= trim(two[j]) then trim(two[j]) else trim(one[i]);
      assert Covers(trim, one, path) && Covers(trim, two, path);
    }
    forall path | Covers(trim, one, path) && Covers(trim, two, path) ensures Overlap(trim, one, two) {
      var i :| 0 <= i < |one| && Writable(one[i]) && trim(one[i]) <= path;
      var j :| 0 <= j < |two| && Writable(two[j]) && trim(two[j]) <= path;
      PrefixesMeet(trim(one[i]), trim(two[j]), path);
      assert Clash(trim, one[i], two[j]);
    }
  }

  lemma OverlapSymmetric(trim: string -> string, one: Scope, two: Scope)
    ensures Overlap(trim, one, two) <==> Overlap(trim, two, one)
  {
    OverlapExactly(trim, one, two);
    OverlapExactly(trim, two, one);
  }

  // ---- Commands -----------------------------------------------------------

  datatype Command =
    | Register(id: Id, instance: Instance)
    | Heartbeat(id: Id, seen: int)
    | Claim(id: Id, scope: Scope)
    | Release(id: Id)
    | Unregister(id: Id)
    | Sweep(gone: Instance -> bool)

  /** A listed claim of another instance stands in the way. */
  predicate Blocked(trim: string -> string, claims: map<Id, Scope>, id: Id, scope: Scope) {
    exists other :: other in claims && InTheWay(trim, claims, id, scope, other)
  }

  predicate InTheWay(trim: string -> string, claims: map<Id, Scope>, id: Id, scope: Scope, other: Id)
    requires other in claims
  {
    Visible(other) && other != id && Overlap(trim, scope, claims[other])
  }

  function Swept(state: State, gone: Instance -> bool): set<Id> {
    set id | id in state.instances && Visible(id) && gone(state.instances[id])
  }

  function Step(trim: string -> string, state: State, command: Command): State {
    match command
    case Register(id, instance) => state.(instances := state.instances[id := instance])
    case Heartbeat(id, seen) =>
      if id !in state.instances then state
      else state.(instances := state.instances[id := state.instances[id].(lastSeen := seen)])
    case Claim(id, scope) =>
      if Blocked(trim, state.claims, id, scope) then state else state.(claims := state.claims[id := scope])
    case Release(id) => state.(claims := state.claims - {id})
    case Unregister(id) => State(state.instances - {id}, state.claims - {id})
    case Sweep(gone) => State(state.instances - Swept(state, gone), state.claims - Swept(state, gone))
  }

  /** The entry of `id` alone is touched. */
  ghost predicate SameBut<T>(before: map<Id, T>, after: map<Id, T>, id: Id) {
    forall other :: other != id ==>
      (other in after <==> other in before) && (other in before ==> after[other] == before[other])
  }

  /** Exactly the entries that are gone by this test are missing. */
  ghost predicate SameUnless<T>(before: map<Id, T>, after: map<Id, T>, gone: Id -> bool) {
    forall id :: (id in after <==> id in before && !gone(id)) && (id in after ==> after[id] == before[id])
  }

  /** What each command does, entry by entry. */
  ghost predicate Does(trim: string -> string, before: State, command: Command, after: State) {
    match command
    case Register(id, instance) =>
      && id in after.instances && after.instances[id] == instance && SameBut(before.instances, after.instances, id)
      && after.claims == before.claims
    case Heartbeat(id, seen) =>
      && SameBut(before.instances, after.instances, id) && after.claims == before.claims
      && (id in after.instances <==> id in before.instances)
      && (id in before.instances ==> after.instances[id] == before.instances[id].(lastSeen := seen))
    case Claim(id, scope) =>
      if exists other :: other in before.claims && InTheWay(trim, before.claims, id, scope, other)
      then after == before
      else
        && id in after.claims && after.claims[id] == scope && SameBut(before.claims, after.claims, id)
        && after.instances == before.instances
    case Release(id) =>
      id !in after.claims && SameBut(before.claims, after.claims, id) && after.instances == before.instances
    case Unregister(id) =>
      && id !in after.claims && SameBut(before.claims, after.claims, id)
      && id !in after.instances && SameBut(before.instances, after.instances, id)
    case Sweep(gone) =>
      var left := (id: Id) => id in before.instances && id != "" && id[0] != '.' && gone(before.instances[id]);
      SameUnless(before.instances, after.instances, left) && SameUnless(before.claims, after.claims, left)
  }

  lemma StepDoes(trim: string -> string, state: State, command: Command)
    ensures Does(trim, state, command, Step(trim, state, command))
  {
  }

  class Coordination {
    const trim: string -> string
    var state: State

    constructor (trim: string -> string)
      ensures this.trim == trim && state == State(map[], map[])
    {
      this.trim, state := trim, State(map[], map[]);
    }

    /** `claim`: refused when a listed claim of another instance overlaps, else the instance's only claim. */
    method TryClaim(id: Id, scope: Scope) returns (refusedBy: Option<Id>)
      modifies this
      ensures state == Step(trim, old(state), Claim(id, scope)) && Does(trim, old(state), Claim(id, scope), state)
      ensures refusedBy.Some? <==> Blocked(trim, old(state.claims), id, scope)
      ensures refusedBy.Some? ==>
        refusedBy.value in old(state.claims) && InTheWay(trim, old(state.claims), id, scope, refusedBy.value)
    {
      StepDoes(trim, state, Claim(id, scope));
      var rest := state.claims.Keys;
      while rest != {}
        invariant rest <= state.claims.Keys && state == old(state)
        invariant forall other :: other in state.claims && other !in rest ==>
          !InTheWay(trim, state.claims, id, scope, other)
      {
        var other :| other in rest;
        if Visible(other) && other != id {
          var overlap := ScopesOverlap(trim, scope, state.claims[other]);
          if overlap {
            assert InTheWay(trim, state.claims, id, scope, other);
            return Some(other);
          }
        }
        rest := rest - {other};
      }
      state := state.(claims := state.claims[id := scope]);
      return None;
    }

    /** `release`. */
    method ReleaseClaim(id: Id) returns (found: bool)
      modifies this
      ensures state == Step(trim, old(state), Release(id)) && found == (id in old(state.claims))
      ensures Does(trim, old(state), Release(id), state)
    {
      StepDoes(trim, state, Release(id));
      found := id in state.claims;
      if found {
        state := state.(claims := state.claims - {id});
      }
    }

    /** `unregister`: the instance and its claim go together. */
    method UnregisterInstance(id: Id)
      modifies this
      ensures state == Step(trim, old(state), Unregister(id)) && Does(trim, old(state), Unregister(id), state)
    {
      StepDoes(trim, state, Unregister(id));
      if id in state.instances {
        state := state.(instances := state.instances - {id});
      }
      if id in state.claims {
        state := state.(claims := state.claims - {id});
      }
    }

    /** `sweep`: every listed instance that is stale or dead goes, and its claim with it. */
    method SweepGone(gone: Instance -> bool)
      modifies this
      ensures state == Step(trim, old(state), Sweep(gone)) && Does(trim, old(state), Sweep(gone), state)
    {
      StepDoes(trim, state, Sweep(gone));
      var was := state;
      var rest := was.instances.Keys;
      ghost var removed: set<Id> := {};
      while rest != {}
        invariant rest <= was.instances.Keys && removed == Swept(was, gone) - rest
        invariant state == State(was.instances - removed, was.claims - removed)
      {
        var id :| id in rest;
        if Visible(id) && gone(was.instances[id]) {
          state := State(state.instances - {id}, state.claims - {id});
          removed := removed + {id};
        }
        rest := rest - {id};
      }
    }
  }

  // ---- Every run ----------------------------------------------------------

  /** Claims that listings show never overlap one another. */
  ghost predicate Disjoint(trim: string -> string, claims: map<Id, Scope>) {
    forall a, b :: a in claims && b in claims && a != b && Visible(a) && Visible(b) ==>
      !Overlap(trim, claims[a], claims[b])
  }

  lemma StepKeepsDisjoint(trim: string -> string, state: State, command: Command)
    requires Disjoint(trim, state.claims)
    ensures Disjoint(trim, Step(trim, state, command).claims)
  {
    if command.Claim? && !Blocked(trim, state.claims, command.id, command.scope) {
      var id, scope, claims := command.id, command.scope, state.claims;
      forall other | other in claims && other != id && Visible(other)
        ensures !Overlap(trim, scope, claims[other]) && !Overlap(trim, claims[other], scope)
      {
        assert !InTheWay(trim, claims, id, scope, other);
        OverlapSymmetric(trim, scope, claims[other]);
      }
    }
  }

  function Run(trim: string -> string, commands: seq<Command>): State {
    if commands == [] then State(map[], map[])
    else Step(trim, Run(trim, commands[..|commands| - 1]), commands[|commands| - 1])
  }

  lemma {:induction false} RunKeepsDisjoint(trim: string -> string, commands: seq<Command>)
    ensures Disjoint(trim, Run(trim, commands).claims)
  {
    if commands != [] {
      RunKeepsDisjoint(trim, commands[..|commands| - 1]);
      StepKeepsDisjoint(trim, Run(trim, commands[..|commands| - 1]), commands[|commands| - 1]);
    }
  }

  /** Two instances may both write a path after a run of commands. */
  ghost predicate Share(trim: string -> string, commands: seq<Command>, a: Id, b: Id, path: string) {
    var claims := Run(trim, commands).claims;
    a in claims && b in claims && Covers(trim, claims[a], path) && Covers(trim, claims[b], path)
  }

  /** Whatever commands were given, no path may be written by two listed instances. */
  lemma NoPathHasTwoWriters(trim: string -> string, commands: seq<Command>, a: Id, b: Id, path: string)
    requires Share(trim, commands, a, b, path) && Visible(a) && Visible(b)
    ensures a == b
  {
    var claims := Run(trim, commands).claims;
    RunKeepsDisjoint(trim, commands);
    OverlapExactly(trim, claims[a], claims[b]);
  }

  /** A claim is accepted if and only if it leaves no listed instance with a path it shares with another. */
  lemma AcceptedExactly(trim: string -> string, state: State, id: Id, scope: Scope)
    ensures !Blocked(trim, state.claims, id, scope) <==>
      forall other, path :: other in state.claims && other != id && Visible(other) && Covers(trim, scope, path) ==>
        !Covers(trim, state.claims[other], path)
  {
    forall other | other in state.claims {
      OverlapExactly(trim, scope, state.claims[other]);
    }
  }

  /** A claim under an id that is empty or begins with a dot is not listed, so the same scope is given away again. */
  lemma HiddenClaimIsMissed(trim: string -> string, hidden: Id, other: Id, scope: Scope, path: string)
    requires !Visible(hidden) && other != hidden && Covers(trim, scope, path)
    ensures Share(trim, [Claim(hidden, scope), Claim(other, scope)], hidden, other, path)
  {
    var commands := [Claim(hidden, scope), Claim(other, scope)];
    assert commands[..1] == [commands[0]] && commands[..1][..0] == [];
    assert Run(trim, commands[..1]) == State(map[], map[hidden := scope]);
    assert !Blocked(trim, map[hidden := scope], other, scope);
  }

  /** Two instances can come to share a path if and only if the id of one is empty or begins with a dot. */
  lemma SharingExactly(trim: string -> string, a: Id, b: Id)
    requires a != b
    ensures (exists commands, path :: Share(trim, commands, a, b, path)) <==> !Visible(a) || !Visible(b)
  {
    var scope, path := ["src"], trim("src");
    assert Writable(scope[0]) && Covers(trim, scope, path);
    if !Visible(a) {
      HiddenClaimIsMissed(trim, a, b, scope, path);
    } else if !Visible(b) {
      HiddenClaimIsMissed(trim, b, a, scope, path);
      assert Share(trim, [Claim(b, scope), Claim(a, scope)], a, b, path);
    } else {
      forall commands, path | Share(trim, commands, a, b, path) ensures false {
        NoPathHasTwoWriters(trim, commands, a, b, path);
      }
    }
  }
}
