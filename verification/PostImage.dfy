/** Post-image receipts: what a completed operation left on disk, and when a receipt still holds. */
module PostImage {
  import opened Common

  type Path = seq<string>

  type RootKey = nat

  /** What a read of one path finds: bytes, or something no receipt accepts (a link, a directory, a read error). */
  datatype Content = Regular(bytes: seq<byte>) | Irregular

  /** The files on disk, and the physical identity of every directory that has one. */
  datatype Disk = Disk(files: map<Path, Content>, roots: map<Path, RootKey>)

  datatype Binding = Binding(projectId: Path, physicalRootKey: RootKey)

  datatype Authority = Authority(root: Path, stableKey: Option<RootKey>)

  datatype Target = Target(path: Path, contentDigest: Option<Digest>)

  datatype LinkedSource = LinkedSource(root: Path, binding: Binding)

  datatype Receipt = Receipt(targets: seq<Target>, source: Option<Binding>, linkedSources: seq<LinkedSource>)

  const MAX_BOUND_REPLAY_TARGETS := 4096

  function SourceBinding(source: Authority): Option<Binding> {
    if source.stableKey.None? then None else Some(Binding(source.root, source.stableKey.value))
  }

  /** The authority a recorded linked root resolves to now. */
  function LinkedAuthority(disk: Disk, root: Path): Authority {
    Authority(root, if root in disk.roots then Some(disk.roots[root]) else None)
  }

  /** Everything `verify_post_image_bound` checks before it reads the first target. */
  predicate HeaderVerifies(receipt: Receipt, source: Authority, disk: Disk) {
    && receipt.source.Some?
    && 0 < |receipt.targets| <= MAX_BOUND_REPLAY_TARGETS
    && SourceBinding(source) == receipt.source
    && forall i :: 0 <= i < |receipt.linkedSources| ==>
      SourceBinding(LinkedAuthority(disk, receipt.linkedSources[i].root)) == Some(receipt.linkedSources[i].binding)
  }

  /** The receipt was bound to this very source: its root and the physical directory it was admitted with. */
  predicate BoundTo(receipt: Receipt, source: Authority) {
    && source.stableKey.Some? && receipt.source == Some(Binding(source.root, source.stableKey.value))
    && 1 <= |receipt.targets| <= 4096
  }

  /** Every linked root is there, under the id and as the directory that was recorded. */
  predicate LinkedStand(receipt: Receipt, disk: Disk) {
    forall i :: 0 <= i < |receipt.linkedSources| ==>
      var linked := receipt.linkedSources[i];
      && linked.binding.projectId == linked.root
      && linked.root in disk.roots && disk.roots[linked.root] == linked.binding.physicalRootKey
  }

  /** The header check passes exactly for the source the receipt was bound to, while the linked roots stand. */
  lemma HeaderVerifiesExactly(receipt: Receipt, source: Authority, disk: Disk)
    ensures HeaderVerifies(receipt, source, disk) <==> BoundTo(receipt, source) && LinkedStand(receipt, disk)
  {
    forall i | 0 <= i < |receipt.linkedSources|
      ensures var linked := receipt.linkedSources[i];
        SourceBinding(LinkedAuthority(disk, linked.root)) == Some(linked.binding) <==>
          && linked.binding.projectId == linked.root
          && linked.root in disk.roots && disk.roots[linked.root] == linked.binding.physicalRootKey
    {
    }
  }

  /** The source and, behind it, the linked roots, each anchored to the directory the header check admitted. */
  function Anchors(receipt: Receipt, source: Authority): (anchors: seq<Authority>)
    ensures |anchors| == 1 + |receipt.linkedSources|
  {
    [source] + seq(|receipt.linkedSources|, i requires 0 <= i < |receipt.linkedSources| =>
      Authority(receipt.linkedSources[i].root, Some(receipt.linkedSources[i].binding.physicalRootKey)))
  }

  /** `root` is a component-wise prefix of `path`. */
  predicate Above(root: Path, path: Path) {
    root <= path
  }

  /** The last anchor of greatest depth among those that hold `path`, scanned left to right. */
  function DeepestOwner(anchors: seq<Authority>, path: Path): Option<Authority> {
    if anchors == [] then None
    else
      var best := DeepestOwner(anchors[..|anchors| - 1], path);
      var anchor := anchors[|anchors| - 1];
      if Above(anchor.root, path) && (best.None? || |best.value.root| <= |anchor.root|) then Some(anchor) else best
  }

  /** The owner's root is the one deepest admitted root above the path; no two different roots can tie. */
  lemma {:induction false} DeepestOwnerIsUnique(anchors: seq<Authority>, path: Path)
    ensures DeepestOwner(anchors, path).None? <==>
      forall i :: 0 <= i < |anchors| ==> !Above(anchors[i].root, path)
    ensures DeepestOwner(anchors, path).Some? ==>
      var owner := DeepestOwner(anchors, path).value;
      owner in anchors && Above(owner.root, path)
      && forall i :: 0 <= i < |anchors| && Above(anchors[i].root, path) && anchors[i].root != owner.root ==>
        |anchors[i].root| < |owner.root|
  {
    if anchors != [] {
      var init, last := anchors[..|anchors| - 1], anchors[|anchors| - 1];
      DeepestOwnerIsUnique(init, path);
      assert anchors == init + [last];
      forall a: Path | Above(a, path) && Above(last.root, path) && |a| == |last.root| ensures a == last.root {
        assert a == path[..|a|] && last.root == path[..|a|];
      }
    }
  }

  /** The directory now at the anchor's root is still the one that was admitted. */
  predicate Standing(anchor: Authority, disk: Disk) {
    anchor.root in disk.roots && anchor.stableKey == Some(disk.roots[anchor.root])
  }

  /** Digest of the file beneath an anchor: no answer for anything but a regular file or absence, and none at all once
      another directory stands at the root. */
  function DigestBeneath(disk: Disk, anchor: Authority, relative: Path): Option<Option<Digest>> {
    var path := anchor.root + relative;
    if !Standing(anchor, disk) then None
    else if path !in disk.files then Some(None)
    else match disk.files[path]
      case Regular(bytes) => Some(Some(Sha256(bytes)))
      case Irregular => None
  }

  predicate TargetVerifies(anchors: seq<Authority>, target: Target, disk: Disk) {
    match DeepestOwner(anchors, target.path)
    case None => false
    case Some(owner) =>
      Above(owner.root, target.path)
      && DigestBeneath(disk, owner, target.path[|owner.root|..]) == Some(target.contentDigest)
  }

  /** The disk has what the target recorded: the same bytes, or still nothing. */
  predicate HoldsRecorded(target: Target, disk: Disk) {
    match target.contentDigest
    case None => target.path !in disk.files
    case Some(digest) =>
      target.path in disk.files && disk.files[target.path].Regular? && Sha256(disk.files[target.path].bytes) == digest
  }

  /** The deepest anchor above the target still stands. No other anchor can speak for the target. */
  predicate OwnerStands(anchors: seq<Authority>, target: Target, disk: Disk) {
    DeepestOwner(anchors, target.path).Some? && Standing(DeepestOwner(anchors, target.path).value, disk)
  }

  lemma TargetVerifiesExactly(anchors: seq<Authority>, target: Target, disk: Disk)
    ensures TargetVerifies(anchors, target, disk) <==>
      OwnerStands(anchors, target, disk) && HoldsRecorded(target, disk)
  {
    DeepestOwnerIsUnique(anchors, target.path);
    var owner := DeepestOwner(anchors, target.path);
    if owner.Some? {
      assert owner.value.root + target.path[|owner.value.root|..] == target.path;
    }
  }

  /** `verify_post_image_bound` against one unchanging disk. */
  predicate VerifyBound(receipt: Receipt, source: Authority, disk: Disk) {
    HeaderVerifies(receipt, source, disk) &&
    forall i :: 0 <= i < |receipt.targets| ==> TargetVerifies(Anchors(receipt, source), receipt.targets[i], disk)
  }

  /** `verify_post_image`: every target, no anchor. */
  predicate VerifyPostImage(receipt: Receipt, disk: Disk) {
    forall i :: 0 <= i < |receipt.targets| ==> HoldsRecorded(receipt.targets[i], disk)
  }

  /** What a read of `path` shows: nothing, bytes or an error. */
  function Look(disk: Disk, path: Path): Option<Content> {
    if path in disk.files then Some(disk.files[path]) else None
  }

  predicate Readable(disk: Disk, path: Path) {
    Look(disk, path) != Some(Irregular)
  }

  /** Every target holds on a disk exactly when its written path reads there as it did on `left`. */
  ghost predicate Records(targets: seq<Target>, written: seq<Path>, left: Disk) {
    |targets| == |written|
    && (forall i :: 0 <= i < |written| ==> targets[i].path == written[i])
    && forall i, disk: Disk {:trigger HoldsRecorded(targets[i], disk)} :: 0 <= i < |written| ==>
      (HoldsRecorded(targets[i], disk) <==> Look(disk, written[i]) == Look(left, written[i]))
  }

  /** Read the written paths back into a receipt. One unreadable path means no receipt at all. */
  method CapturePostImage(written: seq<Path>, disk: Disk) returns (receipt: Option<Receipt>)
    ensures receipt.Some? <==> forall i :: 0 <= i < |written| ==> Readable(disk, written[i])
    ensures receipt.Some? ==> receipt.value.source.None? && Records(receipt.value.targets, written, disk)
  {
    var targets: seq<Target> := [];
    for n := 0 to |written|
      invariant forall i :: 0 <= i < n ==> Readable(disk, written[i])
      invariant Records(targets, written[..n], disk)
    {
      var path := written[n];
      if path !in disk.files {
        targets := targets + [Target(path, None)];
      } else {
        match disk.files[path]
        case Regular(bytes) => targets := targets + [Target(path, Some(Sha256(bytes)))];
        case Irregular => return None;
      }
    }
    assert written[..|written|] == written;
    receipt := Some(Receipt(targets, None, []));
  }

  /** A captured receipt verifies on a disk exactly when every captured path reads as it did at capture. */
  lemma CapturedVerifiesExactly(receipt: Receipt, written: seq<Path>, left: Disk, later: Disk)
    requires Records(receipt.targets, written, left)
    ensures VerifyPostImage(receipt, later) <==>
      forall i :: 0 <= i < |written| ==> Look(later, written[i]) == Look(left, written[i])
  {
    assert forall i :: 0 <= i < |written| ==>
      (HoldsRecorded(receipt.targets[i], later) <==> Look(later, written[i]) == Look(left, written[i]));
  }

  /** `bind_post_image_to_sources`: bind each root, then keep the receipt only if it verifies. */
  function BindToSources(receipt: Receipt, source: Authority, linked: seq<Authority>, disk: Disk)
    : (bound: Option<Receipt>)
    ensures bound.Some? ==> bound.value.targets == receipt.targets && VerifyBound(bound.value, source, disk)
  {
    if SourceBinding(source).None? || exists i :: 0 <= i < |linked| && SourceBinding(linked[i]).None? then None
    else
      var sources := seq(|linked|, i requires 0 <= i < |linked| =>
        LinkedSource(linked[i].root, SourceBinding(linked[i]).value));
      var bound := Receipt(receipt.targets, SourceBinding(source), sources);
      if VerifyBound(bound, source, disk) then Some(bound) else None
  }

  /** The authorities an operation was admitted with. */
  predicate AllStand(linked: seq<Authority>, disk: Disk) {
    forall i :: 0 <= i < |linked| ==> Standing(linked[i], disk)
  }

  predicate BindsEach(linked: seq<Authority>, sources: seq<LinkedSource>) {
    && |sources| == |linked|
    && forall i :: 0 <= i < |linked| ==>
      && sources[i].root == linked[i].root && sources[i].binding.projectId == linked[i].root
      && linked[i].stableKey == Some(sources[i].binding.physicalRootKey)
  }

  /** A receipt is bound exactly when the source has a physical key, the linked roots stand, there are 1 to 4096 targets
      and each holds beneath the deepest admitted root above it. It then names the source and every linked root. */
  lemma BindsExactly(receipt: Receipt, source: Authority, linked: seq<Authority>, disk: Disk)
    ensures BindToSources(receipt, source, linked, disk).Some? <==>
      && source.stableKey.Some? && AllStand(linked, disk) && 1 <= |receipt.targets| <= 4096
      && forall i :: 0 <= i < |receipt.targets| ==>
        OwnerStands([source] + linked, receipt.targets[i], disk) && HoldsRecorded(receipt.targets[i], disk)
    ensures BindToSources(receipt, source, linked, disk).Some? ==>
      var bound := BindToSources(receipt, source, linked, disk).value;
      bound.targets == receipt.targets && BoundTo(bound, source) && BindsEach(linked, bound.linkedSources)
  {
    if source.stableKey.Some? && forall i :: 0 <= i < |linked| ==> linked[i].stableKey.Some? {
      var sources := seq(|linked|, i requires 0 <= i < |linked| =>
        LinkedSource(linked[i].root, SourceBinding(linked[i]).value));
      var bound := Receipt(receipt.targets, SourceBinding(source), sources);
      assert Anchors(bound, source) == [source] + linked;
      HeaderVerifiesExactly(bound, source, disk);
      LinkedStandExactly(bound, linked, disk);
      forall i | 0 <= i < |receipt.targets|
        ensures TargetVerifies([source] + linked, receipt.targets[i], disk) <==>
          OwnerStands([source] + linked, receipt.targets[i], disk) && HoldsRecorded(receipt.targets[i], disk)
      {
        TargetVerifiesExactly([source] + linked, receipt.targets[i], disk);
      }
    }
  }

  lemma LinkedStandExactly(bound: Receipt, linked: seq<Authority>, disk: Disk)
    requires BindsEach(linked, bound.linkedSources)
    ensures LinkedStand(bound, disk) <==> AllStand(linked, disk)
  {
    forall i | 0 <= i < |linked|
      ensures Standing(linked[i], disk) <==>
        var source := bound.linkedSources[i];
        && source.binding.projectId == source.root
        && source.root in disk.roots && disk.roots[source.root] == source.binding.physicalRootKey
    {
    }
  }

  /** A receipt bound on one disk verifies on another with the same physical roots exactly while every target
      still holds what was recorded. */
  lemma BoundReceiptVerifiesWhileTargetsHold(receipt: Receipt, source: Authority, linked: seq<Authority>,
                                             before: Disk, after: Disk)
    requires BindToSources(receipt, source, linked, before).Some?
    requires after.roots == before.roots
    ensures VerifyBound(BindToSources(receipt, source, linked, before).value, source, after) <==>
      VerifyPostImage(receipt, after)
  {
    var bound := BindToSources(receipt, source, linked, before).value;
    var anchors := Anchors(bound, source);
    forall i | 0 <= i < |bound.targets|
      ensures TargetVerifies(anchors, bound.targets[i], after) <==> HoldsRecorded(bound.targets[i], after)
    {
      TargetVerifiesExactly(anchors, bound.targets[i], before);
      TargetVerifiesExactly(anchors, bound.targets[i], after);
      assert TargetVerifies(anchors, bound.targets[i], before);
    }
    assert bound.targets == receipt.targets;
  }
}
