/** The worktree cache, fenced per indexed root, and the rerouting of an edit into a sibling worktree. */
module WorktreeCache {
  import opened Common

  /** An absolute path, component by component. */
  type Path = seq<string>

  datatype IoError = NotFound | OtherIo(code: int)

  datatype Presence = Present | Missing | Refused(reason: string)

  /** What the file system and `git worktree list` answer during one call. */
  datatype World = World(
    canon: Path -> Result<Path, IoError>, list: Path -> Result<seq<Path>, string>, find: (Path, Path) -> Presence)

  datatype WorktreeError =
    | NotARecognizedWorktree(cwd: Path, root: Path)
    | TargetFileMissing(path: Path)
    | TargetPathRefused(path: Path, reason: string)
    | PathOutsideIndexedRoot(path: Path, root: Path)
    | Io(error: IoError)
    | GitWorktreeList(message: string)

  type Roots = map<Path, set<Path>>

  /** `canonicalize_or_identity`. */
  function CanonOrSame(world: World, path: Path): Path {
    match world.canon(path)
    case Ok(canonical) => canonical
    case Err(_) => path
  }

  function Members(paths: seq<Path>): set<Path> {
    set path | path in paths
  }

  function Slice(roots: Roots, key: Path): set<Path> {
    if key in roots then roots[key] else {}
  }

  // ---- Requests as values -------------------------------------------------

  datatype Request = Refresh(world: World, root: Path) | Look(world: World, dir: Path, root: Path)

  function Key(request: Request): Path {
    CanonOrSame(request.world, request.root)
  }

  /** Whether a request is answered without asking git: a failed canonicalization or a hit. */
  predicate Immediate(roots: Roots, request: Request) {
    request.Look? && (request.world.canon(request.dir).Err? ||
      request.world.canon(request.dir).value in Slice(roots, Key(request)))
  }

  /** The listing a request obtains, if it asks for one and git answers. */
  function Listing(roots: Roots, request: Request): Option<seq<Path>> {
    if Immediate(roots, request) || request.world.list(request.root).Err? then None
    else Some(request.world.list(request.root).value)
  }

  /** The cache behind a request: the slice of its own root replaced by the listing obtained. */
  function Served(roots: Roots, request: Request): Roots {
    match Listing(roots, request)
    case None => roots
    case Some(paths) => roots[Key(request) := Members(paths)]
  }

  /** What `lookup` answers. */
  function Answer(roots: Roots, world: World, dir: Path, root: Path): Result<Option<Path>, WorktreeError> {
    var request := Look(world, dir, root);
    match world.canon(dir)
    case Err(e) => Err(Io(e))
    case Ok(canonical) =>
      if !Immediate(roots, request) && world.list(root).Err? then Err(GitWorktreeList(world.list(root).error))
      else if canonical in Slice(Served(roots, request), Key(request)) then Ok(Some(canonical))
      else Ok(None)
  }

  /** `key` is the canonical form of `path`, or `path` itself when it has none. */
  ghost predicate StandsFor(world: World, path: Path, key: Path) {
    (world.canon(path).Ok? ==> key == world.canon(path).value) && (world.canon(path).Err? ==> key == path)
  }

  /** The slice of `key` has exactly these paths, and every other slice is as it was. */
  ghost predicate Refilled(before: Roots, after: Roots, key: Path, paths: seq<Path>) {
    && key in after && (forall path :: path in after[key] <==> path in paths)
    && forall other :: other != key ==>
      (other in after <==> other in before) && (other in before ==> after[other] == before[other])
  }

  /** One look for `dir` in the slice of `key`: found there, or else decided by a listing that refills it. */
  ghost predicate Looked(before: Roots, after: Roots, key: Path, dir: Path, listed: Result<seq<Path>, string>,
                         r: Result<Option<Path>, WorktreeError>) {
    if key in before && dir in before[key] then after == before && r == Ok(Some(dir))
    else
      match listed
      case Err(message) => after == before && r == Err(GitWorktreeList(message))
      case Ok(paths) => Refilled(before, after, key, paths) && r == Ok(if dir in paths then Some(dir) else None)
  }

  // ---- The cache object ---------------------------------------------------

  class Cache {
    var roots: Roots

    constructor ()
      ensures roots == map[]
    {
      roots := map[];
    }

    /** `refresh`: the slice of one root is wiped and filled from its own listing. */
    method RefreshRoot(world: World, root: Path) returns (r: Result<(), WorktreeError>)
      modifies this
      ensures roots == Served(old(roots), Refresh(world, root))
      ensures r.Ok? <==> world.list(root).Ok?
      ensures r.Ok? ==>
        exists key :: StandsFor(world, root, key) && Refilled(old(roots), roots, key, world.list(root).value)
      ensures r.Err? ==> roots == old(roots)
      ensures r.Err? ==> r.error == GitWorktreeList(world.list(root).error)
    {
      var listed := world.list(root);
      if listed.Err? {
        return Err(GitWorktreeList(listed.error));
      }
      var paths := listed.value;
      var entries: set<Path> := {};
      for i := 0 to |paths|
        invariant entries == Members(paths[..i])
      {
        entries := entries + {paths[i]};
      }
      assert paths[..|paths|] == paths;
      assert StandsFor(world, root, CanonOrSame(world, root));
      roots := roots[CanonOrSame(world, root) := entries];
      return Ok(());
    }

    /** `lookup`: a hit from the root's own slice, else one refresh of it and a second look. */
    method Lookup(world: World, dir: Path, root: Path) returns (r: Result<Option<Path>, WorktreeError>)
      modifies this
      ensures r == Answer(old(roots), world, dir, root)
      ensures roots == Served(old(roots), Look(world, dir, root))
      ensures world.canon(dir).Err? ==> r == Err(Io(world.canon(dir).error)) && roots == old(roots)
      ensures world.canon(dir).Ok? ==> forall key :: StandsFor(world, root, key) ==>
        Looked(old(roots), roots, key, world.canon(dir).value, world.list(root), r)
    {
      var canonical := world.canon(dir);
      if canonical.Err? {
        return Err(Io(canonical.error));
      }
      var key := CanonOrSame(world, root);
      if key in roots && canonical.value in roots[key] {
        return Ok(Some(canonical.value));
      }
      var refreshed := RefreshRoot(world, root);
      if refreshed.Err? {
        return Err(refreshed.error);
      }
      return Ok(if key in roots && canonical.value in roots[key] then Some(canonical.value) else None);
    }
  }

  // ---- Every run of requests ----------------------------------------------

  /** The cache after a run of requests for any roots, from empty. */
  function After(requests: seq<Request>): Roots {
    if requests == [] then map[]
    else Served(After(requests[..|requests| - 1]), requests[|requests| - 1])
  }

  /** The last successful listing a run obtained for a root. */
  function LastListing(requests: seq<Request>, key: Path): Option<seq<Path>> {
    if requests == [] then None
    else
      var earlier, last := requests[..|requests| - 1], requests[|requests| - 1];
      if Key(last) == key && Listing(After(earlier), last).Some? then Listing(After(earlier), last)
      else LastListing(earlier, key)
  }

  /** Every slice is the last successful listing of its own root, and no other root's. */
  lemma {:induction false} SliceIsLastListing(requests: seq<Request>, key: Path)
    ensures key in After(requests) <==> LastListing(requests, key).Some?
    ensures key in After(requests) ==> After(requests)[key] == Members(LastListing(requests, key).value)
  {
    if requests != [] {
      SliceIsLastListing(requests[..|requests| - 1], key);
    }
  }

  /** A request for one root leaves the slices of all others alone. */
  lemma OtherSlicesKept(roots: Roots, request: Request, key: Path)
    requires key != Key(request)
    ensures key in Served(roots, request) <==> key in roots
    ensures key in roots ==> Served(roots, request)[key] == roots[key]
  {
  }

  /** A directory is recognized only if the root's own last listing names it. */
  lemma HitIsListed(requests: seq<Request>, world: World, dir: Path, root: Path)
    requires Answer(After(requests), world, dir, root).Ok? && Answer(After(requests), world, dir, root).value.Some?
    ensures var entry := Answer(After(requests), world, dir, root).value.value;
      var listing := LastListing(requests + [Look(world, dir, root)], CanonOrSame(world, root));
      world.canon(dir) == Ok(entry) && listing.Some? && entry in listing.value
  {
    var request := Look(world, dir, root);
    assert (requests + [request])[..|requests|] == requests;
    SliceIsLastListing(requests + [request], Key(request));
  }

  /** A directory is unknown only if a listing made for this very call lacks it. */
  lemma MissIsFresh(roots: Roots, world: World, dir: Path, root: Path)
    requires Answer(roots, world, dir, root) == Ok(None)
    ensures world.canon(dir).Ok? && world.list(root).Ok? && world.canon(dir).value !in world.list(root).value
  {
  }

  /** A directory the fresh listing names is always recognized, whatever the cache held. */
  lemma FreshIsFound(roots: Roots, world: World, dir: Path, root: Path)
    requires world.canon(dir).Ok? && world.list(root).Ok? && world.canon(dir).value in world.list(root).value
    ensures Answer(roots, world, dir, root) == Ok(Some(world.canon(dir).value))
  {
  }

  /**
   * The converse fails: a hit is not checked against a fresh listing.  A
   * worktree that git has forgotten since is still recognized, if and only if
   * the last listing of its root named it.
   */
  lemma StaleHitExactly(requests: seq<Request>, world: World, dir: Path, root: Path)
    requires world.canon(dir).Ok? && world.list(root).Ok? && world.canon(dir).value !in world.list(root).value
    ensures var listing := LastListing(requests, CanonOrSame(world, root));
      Answer(After(requests), world, dir, root) ==
        if listing.Some? && world.canon(dir).value in listing.value then Ok(Some(world.canon(dir).value)) else Ok(None)
  {
    SliceIsLastListing(requests, CanonOrSame(world, root));
  }

  /** A worktree listed once and removed since: the second look still finds it. */
  lemma StaleHit(root: Path, dir: Path)
    ensures var past := World((p: Path) => Ok(p), (p: Path) => Ok([dir]), (w: Path, p: Path) => Present);
      var now := World((p: Path) => Ok(p), (p: Path) => Ok([]), (w: Path, p: Path) => Present);
      Answer(After([Look(past, dir, root)]), now, dir, root) == Ok(Some(dir)) && dir !in now.list(root).value
  {
    var past := World((p: Path) => Ok(p), (p: Path) => Ok([dir]), (w: Path, p: Path) => Present);
    var now := World((p: Path) => Ok(p), (p: Path) => Ok([]), (w: Path, p: Path) => Present);
    var first := Look(past, dir, root);
    assert [first][..0] == [];
    assert Listing(map[], first) == Some([dir]);
    assert LastListing([first], root) == Some([dir]);
    StaleHitExactly([first], now, dir, root);
  }

  // ---- Rerouting ----------------------------------------------------------

  datatype Target = Target(path: Path, indexed: Path, rerouted: bool)

  /** Canonical paths are their own canonical form. */
  ghost predicate Stable(world: World) {
    forall path :: world.canon(path).Ok? ==> world.canon(world.canon(path).value) == world.canon(path)
  }

  /** The edit goes to the same relative path beneath the working directory. */
  ghost predicate SameRelative(target: Target, root: Path, wd: Path) {
    root <= target.indexed && target.path == wd + target.indexed[|root|..]
  }

  /** `resolve_target_path`. */
  method ResolveTargetPath(world: World, indexedAbs: Path, indexedRoot: Path, workingDirectory: Option<Path>,
                           cache: Cache)
    returns (r: Result<Target, WorktreeError>)
    requires Stable(world)
    modifies cache
    ensures r.Ok? ==> (r.value.rerouted <==> r.value.path != r.value.indexed)
    ensures workingDirectory.None? ==> r == Ok(Target(indexedAbs, indexedAbs, false))
    ensures r.Ok? && workingDirectory.Some? ==> StandsFor(world, indexedAbs, r.value.indexed)
    ensures r.Ok? && r.value.rerouted <==>
      workingDirectory.Some? && MayReroute(world, indexedAbs, indexedRoot, workingDirectory.value, old(cache.roots))
    ensures r.Ok? && r.value.rerouted ==>
      SameRelative(r.value, world.canon(indexedRoot).value, world.canon(workingDirectory.value).value)
    ensures r.Ok? && !r.value.rerouted && workingDirectory.Some? ==>
      world.canon(workingDirectory.value) == world.canon(indexedRoot)
    ensures r.Err? ==> workingDirectory.Some?
    ensures workingDirectory.Some? && world.canon(indexedRoot).Ok? ==>
      (world.canon(workingDirectory.value) == world.canon(indexedRoot) ==> r.Ok?)
      && (world.canon(workingDirectory.value) == Err(NotFound) ==> r.Err? && r.error.NotARecognizedWorktree?)
    ensures r.Err? && (r.error.TargetFileMissing? || r.error.TargetPathRefused?) ==>
      NotThere(world, CanonOrSame(world, indexedAbs), indexedRoot, workingDirectory.value, r.error)
    ensures r.Err? && r.error.NotARecognizedWorktree? ==> Unrecognized(world, indexedRoot, workingDirectory.value)
    ensures r.Err? && r.error.PathOutsideIndexedRoot? ==>
      && StandsFor(world, indexedAbs, r.error.path) && world.canon(indexedRoot) == Ok(r.error.root)
      && !(r.error.root <= r.error.path)
    ensures r.Err? && r.error.Io? ==>
      world.canon(indexedRoot) == Err(r.error.error) || world.canon(workingDirectory.value) == Err(r.error.error)
    ensures r.Err? && r.error.GitWorktreeList? ==>
      world.canon(indexedRoot).Ok? && world.list(world.canon(indexedRoot).value) == Err(r.error.message)
    ensures cache.roots == old(cache.roots) ||
      (workingDirectory.Some? && world.canon(workingDirectory.value).Ok? && world.canon(indexedRoot).Ok?
      && cache.roots == Served(old(cache.roots),
        Look(world, world.canon(workingDirectory.value).value, world.canon(indexedRoot).value)))
  {
    if workingDirectory.None? {
      return Ok(Target(indexedAbs, indexedAbs, false));
    }
    var abs := CanonOrSame(world, indexedAbs);
    var root := world.canon(indexedRoot);
    if root.Err? {
      return Err(Io(root.error));
    }
    var wd := world.canon(workingDirectory.value);
    if wd == Err(NotFound) {
      return Err(NotARecognizedWorktree(workingDirectory.value, root.value));
    }
    if wd.Err? {
      return Err(Io(wd.error));
    }
    if wd.value == root.value {
      return Ok(Target(abs, abs, false));
    }
    if !(root.value <= abs) {
      return Err(PathOutsideIndexedRoot(abs, root.value));
    }
    var relative := abs[|root.value|..];
    var entry := cache.Lookup(world, wd.value, root.value);
    if entry.Err? {
      return Err(entry.error);
    }
    if entry.value.None? {
      MissIsFresh(old(cache.roots), world, wd.value, root.value);
      return Err(NotARecognizedWorktree(wd.value, root.value));
    }
    match world.find(wd.value, relative)
    case Present =>
      SameTail(wd.value, root.value, relative);
      assert abs == root.value + relative;
      r := Ok(Target(wd.value + relative, abs, true));
    case Missing =>
      r := Err(TargetFileMissing(wd.value + relative));
    case Refused(reason) =>
      r := Err(TargetPathRefused(wd.value + relative, reason));
  }

  lemma SameTail(a: Path, b: Path, tail: Path)
    ensures a + tail == b + tail ==> a == b
  {
    assert (a + tail)[..|a|] == a && (b + tail)[..|b|] == b;
  }

  /** The file lies beneath the root, the directory is recognized for this root, and has the file too. */
  ghost predicate MayReroute(world: World, indexedAbs: Path, indexedRoot: Path, workingDirectory: Path, before: Roots) {
    var abs, root, wd := CanonOrSame(world, indexedAbs), world.canon(indexedRoot), world.canon(workingDirectory);
    root.Ok? && wd.Ok? && wd.value != root.value && root.value <= abs
    && Answer(before, world, wd.value, root.value) == Ok(Some(wd.value))
    && world.find(wd.value, abs[|root.value|..]) == Present
  }

  /** The directory has no such file, or one that is refused. */
  ghost predicate NotThere(world: World, abs: Path, indexedRoot: Path, workingDirectory: Path, error: WorktreeError) {
    var root, wd := world.canon(indexedRoot), world.canon(workingDirectory);
    root.Ok? && wd.Ok? && root.value <= abs
    && var relative := abs[|root.value|..];
    (error == TargetFileMissing(wd.value + relative) && world.find(wd.value, relative) == Missing)
    || (error.TargetPathRefused? && error.path == wd.value + relative
      && world.find(wd.value, relative) == Refused(error.reason))
  }

  /** The directory does not exist, or a listing made for this very call lacks it. */
  ghost predicate Unrecognized(world: World, indexedRoot: Path, workingDirectory: Path) {
    var root, wd := world.canon(indexedRoot), world.canon(workingDirectory);
    || wd == Err(NotFound)
    || (root.Ok? && wd.Ok? && world.list(root.value).Ok? && wd.value !in world.list(root.value).value)
  }

  /** Over every run of requests, an edit is rerouted only into a directory of its root's own last listing. */
  lemma RerouteIsListed(requests: seq<Request>, world: World, indexedAbs: Path, indexedRoot: Path,
                        workingDirectory: Path)
    requires Stable(world) && MayReroute(world, indexedAbs, indexedRoot, workingDirectory, After(requests))
    ensures var root, wd := world.canon(indexedRoot).value, world.canon(workingDirectory).value;
      var listing := LastListing(requests + [Look(world, wd, root)], root);
      listing.Some? && wd in listing.value
  {
    var root, wd := world.canon(indexedRoot).value, world.canon(workingDirectory).value;
    HitIsListed(requests, world, wd, root);
  }
}
