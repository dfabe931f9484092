/** Repeated resynchronisation: how many rounds it takes, where it ends, and when it does not. */
module ResyncRounds {
  import opened Common
  import opened Resync

  /** No pinned file is one of the two documents the tool rewrites. */
  ghost predicate PinsOtherFiles(layout: Layout) {
    forall i, manifest, attestation, manifest', attestation' ::
      0 <= i < |Pins(layout)| ==>
        Pins(layout)[i].actual(manifest, attestation) == Pins(layout)[i].actual(manifest', attestation')
  }

  predicate SetIdAgrees(layout: Layout, docs: Docs)
    requires Fits(layout, docs)
  {
    layout.amendmentDigest(ClauseDigests(layout, docs)) == Some(docs.manifest[layout.setId])
  }

  predicate CopyAgrees(layout: Layout, docs: Docs)
    requires Fits(layout, docs)
  {
    layout.copy.Some? ==> docs.attestation[layout.copy.value] == docs.manifest[layout.setId]
  }

  predicate ManifestPinAgrees(layout: Layout, docs: Docs)
    requires Fits(layout, docs)
  {
    layout.pin.Some? && docs.attestation[layout.pin.value] == layout.manifestDigest(docs.manifest)
  }

  predicate AllAgree(layout: Layout, docs: Docs)
    requires Fits(layout, docs)
  {
    Readable(layout, docs) && PinsAgree(layout, docs) && SetIdAgrees(layout, docs)
    && CopyAgrees(layout, docs) && ManifestPinAgrees(layout, docs)
  }

  /** The number of the first stage that disagrees, counted from the end: 4 inventory and clause pins, 3 the amendment
      set digest, 2 its copy in the attestation, 1 the manifest pin, 0 none. */
  function Stage(layout: Layout, docs: Docs): nat
    requires Fits(layout, docs) && Readable(layout, docs)
  {
    if !PinsAgree(layout, docs) then 4
    else if !SetIdAgrees(layout, docs) then 3
    else if !CopyAgrees(layout, docs) then 2
    else if !ManifestPinAgrees(layout, docs) then 1
    else 0
  }

  /** The digest the run is about to replace without counting it first occurs in its own field. */
  predicate OwnFieldFirst(layout: Layout, docs: Docs)
    requires Fits(layout, docs) && Readable(layout, docs)
  {
    match Stage(layout, docs)
    case 3 => FirstAt(docs.manifest, docs.manifest[layout.setId], layout.setId)
    case 2 => FirstAt(docs.attestation, docs.attestation[layout.copy.value], layout.copy.value)
    case 1 => layout.pin.Some? ==> FirstAt(docs.attestation, docs.attestation[layout.pin.value], layout.pin.value)
    case _ => true
  }

  lemma {:induction false} AgreeingPinsCorrectNothing(layout: Layout, docs: Docs, n: nat)
    requires Fits(layout, docs) && Readable(layout, docs) && PinsAgree(layout, docs) && n <= |Pins(layout)|
    ensures Corrected(layout, docs, n) == Some(docs.manifest) && Fixed(layout, docs, n) == docs.manifest
  {
    if n > 0 {
      AgreeingPinsCorrectNothing(layout, docs, n - 1);
      assert !Stale(layout, docs, n - 1);
    }
  }

  // ---- What each stage should do --------------------------------------------

  /** All pins set to what they should hold. */
  function PinsFixed(layout: Layout, docs: Docs): Docs
    requires Fits(layout, docs) && Readable(layout, docs)
  {
    docs.(manifest := Fixed(layout, docs, |Pins(layout)|))
  }

  /** The amendment set digest recomputed. */
  function SetIdFixed(layout: Layout, docs: Docs): Docs
    requires Fits(layout, docs)
  {
    match layout.amendmentDigest(ClauseDigests(layout, docs))
    case None => docs
    case Some(digest) => docs.(manifest := docs.manifest[layout.setId := digest])
  }

  /** The attestation's copy of it brought up to date. */
  function CopyFixed(layout: Layout, docs: Docs): Docs
    requires Fits(layout, docs)
  {
    match layout.copy
    case None => docs
    case Some(slot) => docs.(attestation := docs.attestation[slot := docs.manifest[layout.setId]])
  }

  /** The manifest pinned. */
  function ManifestPinned(layout: Layout, docs: Docs): Docs
    requires Fits(layout, docs)
  {
    match layout.pin
    case None => docs
    case Some(slot) => docs.(attestation := docs.attestation[slot := layout.manifestDigest(docs.manifest)])
  }

  /** The documents with the first stage that disagrees, and nothing else, put right. */
  function OwnRewrite(layout: Layout, docs: Docs): Docs
    requires Fits(layout, docs) && Readable(layout, docs)
  {
    match Stage(layout, docs)
    case 4 => PinsFixed(layout, docs)
    case 3 => SetIdFixed(layout, docs)
    case 2 => CopyFixed(layout, docs)
    case 1 => ManifestPinned(layout, docs)
    case _ => docs
  }

  /** Replacing the first occurrence changes one slot and nothing else exactly when the slot holds that occurrence. */
  lemma ReplaceFirstExactly(text: seq<Digest>, slot: nat, put: Digest)
    requires slot < |text| && text[slot] != put
    ensures ReplaceFirst(text, text[slot], put) == text[slot := put] <==> FirstAt(text, text[slot], slot)
    ensures !FirstAt(text, text[slot], slot) ==> ReplaceFirst(text, text[slot], put)[slot] == text[slot]
  {
    var first := FirstIndex(text, text[slot], slot);
    ReplaceFirstAt(text, text[slot], put, first);
    assert text[first := put][slot] == if first == slot then put else text[slot];
    assert text[slot := put][slot] == put;
  }

  lemma {:induction false} FirstIndex(text: seq<Digest>, word: Digest, index: nat) returns (first: nat)
    requires index < |text| && text[index] == word
    ensures FirstAt(text, word, first) && first <= index
  {
    if i :| 0 <= i < index && text[i] == word {
      first := FirstIndex(text, word, i);
    } else {
      first := index;
    }
  }

  /** A rewriting run puts its own stage right and changes nothing else, if and only if the digest it replaces without
      counting first occurs in its own field. */
  lemma RewriteExactly(layout: Layout, docs: Docs)
    requires Fits(layout, docs) && Round(layout, docs).Rewrote?
    ensures Readable(layout, docs) && Stage(layout, docs) > 0
    ensures Round(layout, docs).docs == OwnRewrite(layout, docs) <==> OwnFieldFirst(layout, docs)
  {
    if !PinsAgree(layout, docs) {
      CorrectedIsFixed(layout, docs, |Pins(layout)|);
    } else {
      AgreeingPinsCorrectNothing(layout, docs, |Pins(layout)|);
      FieldRewriteExactly(layout, docs);
    }
  }

  lemma FieldRewriteExactly(layout: Layout, docs: Docs)
    requires Fits(layout, docs) && Readable(layout, docs) && PinsAgree(layout, docs) && Round(layout, docs).Rewrote?
    ensures Stage(layout, docs) > 0
    ensures Round(layout, docs).docs == OwnRewrite(layout, docs) <==> OwnFieldFirst(layout, docs)
  {
    var digest := layout.amendmentDigest(ClauseDigests(layout, docs)).value;
    if Stage(layout, docs) == 3 {
      ReplaceFirstExactly(docs.manifest, layout.setId, digest);
    } else if Stage(layout, docs) == 2 {
      ReplaceFirstExactly(docs.attestation, layout.copy.value, docs.manifest[layout.setId]);
    } else if Stage(layout, docs) == 1 {
      ReplaceFirstExactly(docs.attestation, layout.pin.value, layout.manifestDigest(docs.manifest));
    }
  }

  /** A run keeps the slots and what can be read. */
  lemma RewriteFits(layout: Layout, docs: Docs)
    requires Fits(layout, docs) && Round(layout, docs).Rewrote?
    ensures Fits(layout, Round(layout, docs).docs)
    ensures PinsOtherFiles(layout) ==> Readable(layout, docs) && Readable(layout, Round(layout, docs).docs)
  {
    if !PinsAgree(layout, docs) {
      CorrectedIsFixed(layout, docs, |Pins(layout)|);
    }
    var next := Round(layout, docs).docs;
    assert |next.manifest| == |docs.manifest| && |next.attestation| == |docs.attestation|;
  }

  /** With pins on other files, documents of one shape have the same pins to satisfy. */
  lemma PinsElsewhere(layout: Layout, docs: Docs, next: Docs)
    requires PinsOtherFiles(layout) && Fits(layout, docs) && Fits(layout, next) && Readable(layout, docs)
    ensures Readable(layout, next)
    ensures forall i :: 0 <= i < |Pins(layout)| ==> Actual(layout, next, i) == Actual(layout, docs, i)
  {
  }

  /** Changing no pinned slot keeps the pins in agreement and the amendments as they are. */
  lemma PinsKept(layout: Layout, docs: Docs, next: Docs)
    requires PinsOtherFiles(layout) && Fits(layout, docs) && Fits(layout, next) && Readable(layout, docs)
    requires forall i :: 0 <= i < |Pins(layout)| ==>
      next.manifest[Pins(layout)[i].slot] == docs.manifest[Pins(layout)[i].slot]
    ensures Readable(layout, next) && (PinsAgree(layout, next) <==> PinsAgree(layout, docs))
    ensures ClauseDigests(layout, next) == ClauseDigests(layout, docs)
  {
    PinsElsewhere(layout, docs, next);
    assert forall i :: 0 <= i < |Pins(layout)| ==> (Stale(layout, next, i) <==> Stale(layout, docs, i));
    assert forall i :: 0 <= i < |layout.clauses| ==> layout.clauses[i] == Pins(layout)[|layout.inventory| + i];
  }

  lemma PinsFixedAgree(layout: Layout, docs: Docs)
    requires PinsOtherFiles(layout) && Fits(layout, docs) && Readable(layout, docs)
    ensures var next := PinsFixed(layout, docs); Fits(layout, next) && Readable(layout, next) && PinsAgree(layout, next)
  {
    var next := PinsFixed(layout, docs);
    PinsElsewhere(layout, docs, next);
    forall i | 0 <= i < |Pins(layout)| ensures !Stale(layout, next, i) {
      FixedPin(layout, docs, |Pins(layout)|, i);
    }
  }

  /** The stage that is put right agrees afterwards, and none before it is disturbed. */
  lemma OwnRewriteDescends(layout: Layout, docs: Docs)
    requires PinsOtherFiles(layout) && Fits(layout, docs) && Readable(layout, docs)
    requires Round(layout, docs).Rewrote?
    ensures var next := OwnRewrite(layout, docs);
      Fits(layout, next) && Readable(layout, next) && Stage(layout, next) < Stage(layout, docs)
  {
    var next := OwnRewrite(layout, docs);
    if Stage(layout, docs) == 4 {
      PinsFixedAgree(layout, docs);
    } else {
      PinsKept(layout, docs, next);
    }
  }

  /** A run that misses its own field leaves its stage as stale as it was. */
  lemma MissedFieldStays(layout: Layout, docs: Docs)
    requires PinsOtherFiles(layout) && Fits(layout, docs) && Readable(layout, docs) && !OwnFieldFirst(layout, docs)
    requires Round(layout, docs).Rewrote?
    ensures var next := Round(layout, docs).docs;
      Fits(layout, next) && Readable(layout, next) && Stage(layout, next) >= Stage(layout, docs)
  {
    var next := Round(layout, docs).docs;
    RewriteFits(layout, docs);
    AgreeingPinsCorrectNothing(layout, docs, |Pins(layout)|);
    if Stage(layout, docs) == 3 {
      var digest := layout.amendmentDigest(ClauseDigests(layout, docs)).value;
      ReplaceFirstExactly(docs.manifest, layout.setId, digest);
      MissedSetId(layout, docs, next);
    } else if Stage(layout, docs) == 2 {
      ReplaceFirstExactly(docs.attestation, layout.copy.value, docs.manifest[layout.setId]);
      PinsKept(layout, docs, next);
    } else {
      ReplaceFirstExactly(docs.attestation, layout.pin.value, layout.manifestDigest(docs.manifest));
      PinsKept(layout, docs, next);
    }
  }

  lemma MissedSetId(layout: Layout, docs: Docs, next: Docs)
    requires PinsOtherFiles(layout) && Fits(layout, docs) && Readable(layout, docs) && PinsAgree(layout, docs)
    requires Fits(layout, next) && !SetIdAgrees(layout, docs)
    requires next.manifest[layout.setId] == docs.manifest[layout.setId]
    ensures Readable(layout, next) && Stage(layout, next) >= 3
  {
    PinsElsewhere(layout, docs, next);
    if PinsAgree(layout, next) {
      forall i | 0 <= i < |Pins(layout)|
        ensures next.manifest[Pins(layout)[i].slot] == docs.manifest[Pins(layout)[i].slot]
      {
        assert !Stale(layout, next, i) && !Stale(layout, docs, i);
      }
      PinsKept(layout, docs, next);
    }
  }

  /** Progress: a rewriting run settles its stage and disturbs none before it, if and only if the digest it replaces
      first occurs in its own field. */
  lemma RewriteDescendsExactly(layout: Layout, docs: Docs)
    requires PinsOtherFiles(layout) && Fits(layout, docs) && Round(layout, docs).Rewrote?
    ensures var next := Round(layout, docs).docs;
      && Readable(layout, docs) && Fits(layout, next) && Readable(layout, next)
      && (Stage(layout, next) < Stage(layout, docs) <==> OwnFieldFirst(layout, docs))
  {
    RewriteExactly(layout, docs);
    RewriteFits(layout, docs);
    if OwnFieldFirst(layout, docs) {
      OwnRewriteDescends(layout, docs);
    } else {
      MissedFieldStays(layout, docs);
    }
  }

  /** A run settles exactly when everything agrees. */
  lemma SettledExactly(layout: Layout, docs: Docs)
    requires Fits(layout, docs)
    ensures Round(layout, docs) == Settled <==> AllAgree(layout, docs)
  {
    if Readable(layout, docs) && PinsAgree(layout, docs) {
      AgreeingPinsCorrectNothing(layout, docs, |Pins(layout)|);
    }
  }

  // ---- Every sequence of rounds ---------------------------------------------

  /** The documents after one more run. */
  function Next(layout: Layout, docs: Docs): (next: Docs)
    requires Fits(layout, docs)
    ensures Fits(layout, next)
  {
    if Round(layout, docs).Rewrote? then RewriteFits(layout, docs); Round(layout, docs).docs else docs
  }

  function Iterate(step: Docs -> Docs, docs: Docs, n: nat): Docs {
    if n == 0 then docs else step(Iterate(step, docs, n - 1))
  }

  function Commit(layout: Layout): Docs -> Docs {
    docs => if Fits(layout, docs) then Next(layout, docs) else docs
  }

  /** The committed documents after `n` runs; a run that settles or refuses leaves them as they are. */
  function After(layout: Layout, docs: Docs, n: nat): Docs {
    Iterate(Commit(layout), docs, n)
  }

  lemma OneMore(layout: Layout, docs: Docs, n: nat)
    requires Fits(layout, After(layout, docs, n))
    ensures After(layout, docs, n + 1) == Next(layout, After(layout, docs, n))
  {
  }

  predicate RefusesAt(layout: Layout, docs: Docs, n: nat) {
    var after := After(layout, docs, n); Fits(layout, after) && Round(layout, after) == Refused
  }

  ghost predicate NeverRefused(layout: Layout, docs: Docs) {
    forall n: nat :: !RefusesAt(layout, docs, n)
  }

  /** All four stages put right, each in its own field. */
  function Goal(layout: Layout, docs: Docs): Docs
    requires Fits(layout, docs) && Readable(layout, docs)
  {
    ManifestPinned(layout, CopyFixed(layout, SetIdFixed(layout, PinsFixed(layout, docs))))
  }

  /** What can be told from the documents before the first run: each of the three digests that will be replaced without
      counting, if it is stale by then, does not occur before its own field in the text it will be searched in. */
  predicate Clear(layout: Layout, docs: Docs)
    requires Fits(layout, docs) && Readable(layout, docs)
  {
    var pins := PinsFixed(layout, docs);
    var setId := SetIdFixed(layout, pins);
    var copy := CopyFixed(layout, setId);
    && (setId != pins ==> FirstAt(pins.manifest, pins.manifest[layout.setId], layout.setId))
    && (copy != setId ==> FirstAt(setId.attestation, setId.attestation[layout.copy.value], layout.copy.value))
    && (ManifestPinned(layout, copy) != copy ==>
      FirstAt(copy.attestation, copy.attestation[layout.pin.value], layout.pin.value))
  }

  /** A stage that agrees has nothing to put right. */
  lemma AgreeingStages(layout: Layout, docs: Docs)
    requires Fits(layout, docs) && Readable(layout, docs)
    ensures PinsAgree(layout, docs) ==> PinsFixed(layout, docs) == docs
    ensures SetIdAgrees(layout, docs) ==> SetIdFixed(layout, docs) == docs
    ensures CopyAgrees(layout, docs) ==> CopyFixed(layout, docs) == docs
    ensures ManifestPinAgrees(layout, docs) ==> ManifestPinned(layout, docs) == docs
  {
    if PinsAgree(layout, docs) {
      AgreeingPinsCorrectNothing(layout, docs, |Pins(layout)|);
    }
  }

  /** Behind its own rewrite a document has the same goal, and is clear exactly when it was, but for the stage just
      done. */
  lemma GoalKept(layout: Layout, docs: Docs)
    requires PinsOtherFiles(layout) && Fits(layout, docs) && Readable(layout, docs) && Round(layout, docs).Rewrote?
    ensures var next := OwnRewrite(layout, docs);
      && Fits(layout, next) && Readable(layout, next) && Goal(layout, next) == Goal(layout, docs)
      && (Clear(layout, docs) <==> OwnFieldFirst(layout, docs) && Clear(layout, next))
  {
    var next := OwnRewrite(layout, docs);
    OwnRewriteDescends(layout, docs);
    AgreeingStages(layout, docs);
    AgreeingStages(layout, next);
    if Stage(layout, docs) < 4 {
      PinsKept(layout, docs, next);
      LaterGoalKept(layout, docs);
    }
  }

  lemma LaterGoalKept(layout: Layout, docs: Docs)
    requires PinsOtherFiles(layout) && Fits(layout, docs) && Readable(layout, docs) && PinsAgree(layout, docs)
    requires Round(layout, docs).Rewrote?
    requires var next := OwnRewrite(layout, docs);
      Fits(layout, next) && Readable(layout, next) && PinsAgree(layout, next)
      && Stage(layout, next) < Stage(layout, docs) < 4
    ensures var next := OwnRewrite(layout, docs);
      && Goal(layout, next) == Goal(layout, docs)
      && (Clear(layout, docs) <==> OwnFieldFirst(layout, docs) && Clear(layout, next))
  {
    var next := OwnRewrite(layout, docs);
    AgreeingStages(layout, docs);
    AgreeingStages(layout, next);
    assert PinsFixed(layout, docs) == docs && PinsFixed(layout, next) == next;
    if Stage(layout, docs) == 3 {
      assert SetIdFixed(layout, next) == next == SetIdFixed(layout, docs);
      assert next != docs;
    } else if Stage(layout, docs) == 2 {
      assert SetIdFixed(layout, docs) == docs && SetIdFixed(layout, next) == next;
      assert CopyFixed(layout, next) == next == CopyFixed(layout, docs);
      assert next != docs;
    } else {
      assert CopyFixed(layout, docs) == docs && CopyFixed(layout, next) == next;
      assert ManifestPinned(layout, next) == next == ManifestPinned(layout, docs);
      assert next != docs;
    }
  }

  lemma ClearStep(layout: Layout, docs: Docs)
    requires PinsOtherFiles(layout) && Fits(layout, docs) && Round(layout, docs) != Refused
    requires Readable(layout, docs) && Clear(layout, docs)
    ensures var next := Next(layout, docs);
      && Readable(layout, next) && Clear(layout, next) && Goal(layout, next) == Goal(layout, docs)
      && (if Round(layout, docs).Rewrote? then Stage(layout, next) < Stage(layout, docs) else Stage(layout, next) == 0)
  {
    if Round(layout, docs).Rewrote? {
      GoalKept(layout, docs);
      RewriteExactly(layout, docs);
      RewriteDescendsExactly(layout, docs);
    } else {
      SettledExactly(layout, docs);
    }
  }

  /** Clear documents on their way to `goal`, with at most `4 - n` rewrites to go. */
  predicate OnTrack(layout: Layout, goal: Docs, docs: Docs, n: nat) {
    && Fits(layout, docs) && Readable(layout, docs) && Clear(layout, docs) && Goal(layout, docs) == goal
    && (Stage(layout, docs) == 0 || Stage(layout, docs) + n <= 4)
  }

  lemma StaysOnTrack(layout: Layout, goal: Docs, docs: Docs, n: nat)
    requires PinsOtherFiles(layout) && OnTrack(layout, goal, After(layout, docs, n), n) && !RefusesAt(layout, docs, n)
    ensures OnTrack(layout, goal, After(layout, docs, n + 1), n + 1)
  {
    ClearStep(layout, After(layout, docs, n));
    OneMore(layout, docs, n);
  }

  predicate Carries(step: Docs -> Docs, good: (nat, Docs) -> bool, docs: Docs, n: nat) {
    good(n, Iterate(step, docs, n)) ==> good(n + 1, Iterate(step, docs, n + 1))
  }

  lemma {:induction false} CarriedOn(step: Docs -> Docs, good: (nat, Docs) -> bool, docs: Docs, n: nat)
    requires good(0, docs) && forall k: nat :: Carries(step, good, docs, k)
    ensures good(n, Iterate(step, docs, n))
  {
    if n > 0 {
      CarriedOn(step, good, docs, n - 1);
      assert Carries(step, good, docs, n - 1);
    }
  }

  /** From clear documents, runs that never refuse need at most four rewrites. */
  lemma ClearRounds(layout: Layout, docs: Docs, n: nat)
    requires PinsOtherFiles(layout) && Fits(layout, docs) && NeverRefused(layout, docs)
    requires Readable(layout, docs) && Clear(layout, docs)
    ensures OnTrack(layout, Goal(layout, docs), After(layout, docs, n), n)
  {
    var goal := Goal(layout, docs);
    var good := (k: nat, d: Docs) => OnTrack(layout, goal, d, k);
    forall k: nat ensures Carries(Commit(layout), good, docs, k) {
      assert !RefusesAt(layout, docs, k);
      if OnTrack(layout, goal, After(layout, docs, k), k) {
        StaysOnTrack(layout, goal, docs, k);
      }
    }
    CarriedOn(Commit(layout), good, docs, n);
  }

  /** A rewrite by the next run settles a stage and disturbs none before it. */
  predicate DescendsAt(layout: Layout, docs: Docs, n: nat) {
    var before := After(layout, docs, n);
    Fits(layout, before) && (Round(layout, before).Rewrote? ==>
      var next := Next(layout, before);
      Readable(layout, before) && Readable(layout, next) && Stage(layout, next) < Stage(layout, before))
  }

  predicate SettledAt(layout: Layout, docs: Docs, n: nat) {
    var after := After(layout, docs, n); Fits(layout, after) && Round(layout, after) == Settled
  }

  /** The runs settle after at most four rewrites, each of which dirties later stages only. */
  ghost predicate SettlesInOrder(layout: Layout, docs: Docs) {
    SettledAt(layout, docs, 4) && forall n: nat :: DescendsAt(layout, docs, n)
  }

  lemma ClearBehind(layout: Layout, docs: Docs)
    requires PinsOtherFiles(layout) && Fits(layout, docs) && Round(layout, docs) != Refused
    requires Round(layout, docs).Rewrote? ==>
      var next := Next(layout, docs);
      && Readable(layout, docs) && Readable(layout, next)
      && Stage(layout, next) < Stage(layout, docs) && Clear(layout, next)
    ensures Readable(layout, docs) && Clear(layout, docs)
  {
    if Round(layout, docs).Rewrote? {
      RewriteDescendsExactly(layout, docs);
      RewriteExactly(layout, docs);
      GoalKept(layout, docs);
    } else {
      SettledExactly(layout, docs);
      AgreeingStages(layout, docs);
    }
  }

  predicate ClearAt(layout: Layout, docs: Docs, n: nat) {
    var after := After(layout, docs, n); Fits(layout, after) && Readable(layout, after) && Clear(layout, after)
  }

  lemma ClearBefore(layout: Layout, docs: Docs, n: nat)
    requires PinsOtherFiles(layout) && !RefusesAt(layout, docs, n) && DescendsAt(layout, docs, n)
    requires SettledAt(layout, docs, n) || ClearAt(layout, docs, n + 1)
    ensures ClearAt(layout, docs, n)
  {
    OneMore(layout, docs, n);
    ClearBehind(layout, After(layout, docs, n));
  }

  predicate StepsBack(good: nat -> bool, n: nat) {
    good(n + 1) ==> good(n)
  }

  lemma {:induction false} CarriedBack(good: nat -> bool, n: nat)
    requires good(n) && forall k: nat :: StepsBack(good, k)
    ensures good(0)
  {
    if n > 0 {
      assert StepsBack(good, n - 1);
      CarriedBack(good, n - 1);
    }
  }

  /** Whoever settles in order was clear all along. */
  lemma InOrderIsClear(layout: Layout, docs: Docs)
    requires PinsOtherFiles(layout) && NeverRefused(layout, docs) && SettlesInOrder(layout, docs)
    ensures ClearAt(layout, docs, 0)
  {
    var good := (k: nat) => ClearAt(layout, docs, k);
    forall k: nat ensures StepsBack(good, k) {
      if ClearAt(layout, docs, k + 1) {
        assert !RefusesAt(layout, docs, k) && DescendsAt(layout, docs, k);
        ClearBefore(layout, docs, k);
      }
    }
    assert !RefusesAt(layout, docs, 4) && DescendsAt(layout, docs, 4);
    ClearBefore(layout, docs, 4);
    CarriedBack(good, 4);
  }

  lemma ClearSettles(layout: Layout, docs: Docs)
    requires PinsOtherFiles(layout) && Fits(layout, docs) && NeverRefused(layout, docs)
    requires Readable(layout, docs) && Clear(layout, docs)
    ensures SettledAt(layout, docs, 4) && After(layout, docs, 4) == Goal(layout, docs)
    ensures Fits(layout, Goal(layout, docs)) && AllAgree(layout, Goal(layout, docs))
  {
    ClearRounds(layout, docs, 4);
    assert !RefusesAt(layout, docs, 4);
    var after := After(layout, docs, 4);
    SettledExactly(layout, after);
    AgreeingStages(layout, after);
  }

  lemma ClearDescends(layout: Layout, docs: Docs, n: nat)
    requires PinsOtherFiles(layout) && Fits(layout, docs) && NeverRefused(layout, docs)
    requires Readable(layout, docs) && Clear(layout, docs)
    ensures DescendsAt(layout, docs, n)
  {
    ClearRounds(layout, docs, n);
    assert !RefusesAt(layout, docs, n);
    ClearStep(layout, After(layout, docs, n));
  }

  // ---- When the rounds never refuse -----------------------------------------

  /** What can be told before the first run: the pins can be read, the stale ones told apart, the amendments of the
      corrected manifest have a digest, and the attestation has a field for the manifest pin. */
  predicate Ready(layout: Layout, docs: Docs)
    requires Fits(layout, docs)
  {
    && Readable(layout, docs) && Distinguishable(layout, docs) && layout.pin.Some?
    && layout.amendmentDigest(ClauseDigests(layout, PinsFixed(layout, docs))).Some?
  }

  lemma AgreeingIsDistinguishable(layout: Layout, docs: Docs)
    requires Fits(layout, docs) && Readable(layout, docs) && PinsAgree(layout, docs)
    ensures Distinguishable(layout, docs) && PinsFixed(layout, docs) == docs
  {
    AgreeingStages(layout, docs);
  }

  lemma ReadyIsNotRefused(layout: Layout, docs: Docs)
    requires Fits(layout, docs) && Ready(layout, docs)
    ensures Round(layout, docs) != Refused
  {
    RefusesExactly(layout, docs);
    if PinsAgree(layout, docs) {
      AgreeingIsDistinguishable(layout, docs);
    }
  }

  /** Putting a stage right keeps the amendments of the corrected manifest. */
  lemma RewriteKeepsAmendments(layout: Layout, docs: Docs)
    requires PinsOtherFiles(layout) && Fits(layout, docs) && Readable(layout, docs) && Round(layout, docs).Rewrote?
    ensures var next := OwnRewrite(layout, docs);
      && Fits(layout, next) && Readable(layout, next) && PinsAgree(layout, next)
      && ClauseDigests(layout, next) == ClauseDigests(layout, PinsFixed(layout, docs))
  {
    var next := OwnRewrite(layout, docs);
    OwnRewriteDescends(layout, docs);
    if Stage(layout, docs) < 4 {
      AgreeingIsDistinguishable(layout, docs);
      PinsKept(layout, docs, next);
    }
  }

  lemma ReadyStep(layout: Layout, docs: Docs)
    requires PinsOtherFiles(layout) && Fits(layout, docs) && Ready(layout, docs) && Clear(layout, docs)
    ensures var next := Next(layout, docs); Ready(layout, next) && Clear(layout, next)
  {
    ReadyIsNotRefused(layout, docs);
    ClearStep(layout, docs);
    if Round(layout, docs).Rewrote? {
      GoalKept(layout, docs);
      RewriteExactly(layout, docs);
      RewriteKeepsAmendments(layout, docs);
      AgreeingIsDistinguishable(layout, OwnRewrite(layout, docs));
    }
  }

  predicate ReadyAndClear(layout: Layout, docs: Docs) {
    Fits(layout, docs) && Ready(layout, docs) && Clear(layout, docs)
  }

  lemma ReadyNext(layout: Layout, docs: Docs, n: nat)
    requires PinsOtherFiles(layout) && ReadyAndClear(layout, After(layout, docs, n))
    ensures ReadyAndClear(layout, After(layout, docs, n + 1))
  {
    ReadyStep(layout, After(layout, docs, n));
    OneMore(layout, docs, n);
  }

  lemma ReadyNeverRefuses(layout: Layout, docs: Docs)
    requires PinsOtherFiles(layout) && ReadyAndClear(layout, docs)
    ensures NeverRefused(layout, docs)
  {
    var good := (_: nat, d: Docs) => ReadyAndClear(layout, d);
    forall k: nat ensures Carries(Commit(layout), good, docs, k) {
      if ReadyAndClear(layout, After(layout, docs, k)) {
        ReadyNext(layout, docs, k);
      }
    }
    forall n: nat ensures !RefusesAt(layout, docs, n) {
      CarriedOn(Commit(layout), good, docs, n);
      ReadyIsNotRefused(layout, After(layout, docs, n));
    }
  }

  lemma {:induction false} IterateStays(step: Docs -> Docs, docs: Docs, n: nat, more: nat)
    requires step(Iterate(step, docs, n)) == Iterate(step, docs, n)
    ensures Iterate(step, docs, n + more) == Iterate(step, docs, n)
    decreases more
  {
    if more > 0 {
      IterateStays(step, docs, n, more - 1);
    }
  }

  /** A run that does not rewrite is repeated for ever. */
  lemma StuckForEver(layout: Layout, docs: Docs, n: nat, more: nat)
    requires var after := After(layout, docs, n); Fits(layout, after) && !Round(layout, after).Rewrote?
    ensures After(layout, docs, n + more) == After(layout, docs, n)
  {
    IterateStays(Commit(layout), docs, n, more);
  }

  lemma SameOutcome(layout: Layout, docs: Docs, m: nat, n: nat)
    requires SettledAt(layout, docs, m) && After(layout, docs, m) == After(layout, docs, n)
    ensures !RefusesAt(layout, docs, n)
  {
  }

  lemma SettledStays(layout: Layout, docs: Docs, m: nat, n: nat)
    requires SettledAt(layout, docs, m) && m <= n
    ensures After(layout, docs, n) == After(layout, docs, m)
  {
    StuckForEver(layout, docs, m, n - m);
  }

  lemma RefusedStays(layout: Layout, docs: Docs, m: nat, n: nat)
    requires RefusesAt(layout, docs, m) && m <= n
    ensures After(layout, docs, n) == After(layout, docs, m)
  {
    StuckForEver(layout, docs, m, n - m);
  }

  lemma SettledIsNotRefused(layout: Layout, docs: Docs, m: nat, n: nat)
    requires SettledAt(layout, docs, m)
    ensures !RefusesAt(layout, docs, n)
  {
    if m <= n {
      SettledStays(layout, docs, m, n);
      SameOutcome(layout, docs, m, n);
    } else if RefusesAt(layout, docs, n) {
      RefusedStays(layout, docs, n, m);
      SameOutcome(layout, docs, m, n);
    }
  }

  /** Runs that have settled never refused and never will. */
  lemma SettledNeverRefused(layout: Layout, docs: Docs, m: nat)
    requires SettledAt(layout, docs, m)
    ensures NeverRefused(layout, docs)
  {
    forall n: nat ensures !RefusesAt(layout, docs, n) {
      SettledIsNotRefused(layout, docs, m, n);
    }
  }

  /** Clear documents whose runs never refuse were ready. */
  lemma NeverRefusedIsReady(layout: Layout, docs: Docs)
    requires PinsOtherFiles(layout) && Fits(layout, docs) && NeverRefused(layout, docs)
    requires Readable(layout, docs) && Clear(layout, docs)
    ensures Ready(layout, docs)
  {
    assert !RefusesAt(layout, docs, 0);
    RefusesExactly(layout, docs);
    if PinsAgree(layout, docs) {
      AgreeingIsDistinguishable(layout, docs);
    }
    ClearSettles(layout, docs);
    GoalAmendments(layout, docs);
  }

  /** The goal has the amendments of the corrected manifest. */
  lemma GoalAmendments(layout: Layout, docs: Docs)
    requires PinsOtherFiles(layout) && Fits(layout, docs) && Readable(layout, docs)
    ensures Fits(layout, Goal(layout, docs))
    ensures ClauseDigests(layout, Goal(layout, docs)) == ClauseDigests(layout, PinsFixed(layout, docs))
  {
    PinsFixedAgree(layout, docs);
    PinsKept(layout, PinsFixed(layout, docs), Goal(layout, docs));
  }

  /** The rounds settle after at most four rewrites, each dirtying later stages only, if and only if the documents are
      ready and clear before the first of them. No run then refuses, and they end with every stage put right in its own
      field, and all digests in agreement. */
  lemma FourRewritesExactly(layout: Layout, docs: Docs)
    requires PinsOtherFiles(layout) && Fits(layout, docs)
    ensures Ready(layout, docs) && Clear(layout, docs) <==> SettlesInOrder(layout, docs)
    ensures SettlesInOrder(layout, docs) ==>
      NeverRefused(layout, docs) && After(layout, docs, 4) == Goal(layout, docs) && Fits(layout, Goal(layout, docs))
      && AllAgree(layout, Goal(layout, docs))
  {
    if Ready(layout, docs) && Clear(layout, docs) {
      ReadyNeverRefuses(layout, docs);
      ClearSettles(layout, docs);
      forall n: nat ensures DescendsAt(layout, docs, n) {
        ClearDescends(layout, docs, n);
      }
    }
    if SettlesInOrder(layout, docs) {
      SettledNeverRefused(layout, docs, 4);
      InOrderIsClear(layout, docs);
      NeverRefusedIsReady(layout, docs);
      ClearSettles(layout, docs);
    }
  }

  /** From clear documents, the runs never refuse if and only if the documents are ready. */
  lemma NeverRefusedExactly(layout: Layout, docs: Docs)
    requires PinsOtherFiles(layout) && Fits(layout, docs) && Readable(layout, docs) && Clear(layout, docs)
    ensures NeverRefused(layout, docs) <==> Ready(layout, docs)
  {
    if Ready(layout, docs) {
      ReadyNeverRefuses(layout, docs);
    }
    if NeverRefused(layout, docs) {
      NeverRefusedIsReady(layout, docs);
    }
  }

  // ---- What goes wrong otherwise --------------------------------------------

  lemma {:induction false} CountNone(text: seq<Digest>, word: Digest)
    requires word !in text
    ensures Count(text, word) == 0
  {
    if text != [] {
      assert text[0] in text && forall w :: w in text[1..] ==> w in text;
      CountNone(text[1..], word);
    }
  }

  lemma {:induction false} CountPut(text: seq<Digest>, word: Digest, slot: nat)
    requires word !in text && slot < |text|
    ensures Count(text[slot := word], word) == 1
  {
    assert text[0] in text && forall w :: w in text[1..] ==> w in text;
    if slot == 0 {
      assert text[slot := word][1..] == text[1..];
      CountNone(text[1..], word);
    } else {
      assert text[slot := word][1..] == text[1..][slot - 1 := word];
      CountPut(text[1..], word, slot - 1);
    }
  }

  /** The documents with a pin spoiled by another digest. */
  function Spoiled(layout: Layout, docs: Docs, i: nat, digest: Digest): (other: Docs)
    requires Fits(layout, docs) && i < |Pins(layout)|
    ensures Fits(layout, other)
  {
    docs.(manifest := docs.manifest[Pins(layout)[i].slot := digest])
  }

  lemma SpoiledPins(layout: Layout, docs: Docs, i: nat, digest: Digest)
    requires PinsOtherFiles(layout) && Fits(layout, docs) && Readable(layout, docs) && PinsAgree(layout, docs)
    requires i < |Pins(layout)| && digest !in docs.manifest
    ensures var other := Spoiled(layout, docs, i, digest);
      Readable(layout, other) && forall k :: 0 <= k < |Pins(layout)| ==> (Stale(layout, other, k) <==> k == i)
    ensures Actual(layout, Spoiled(layout, docs, i, digest), i) == docs.manifest[Pins(layout)[i].slot]
  {
    var other := Spoiled(layout, docs, i, digest);
    PinsElsewhere(layout, docs, other);
    assert docs.manifest[Pins(layout)[i].slot] in docs.manifest;
    assert !Stale(layout, docs, i);
    forall k | 0 <= k < |Pins(layout)| ensures Stale(layout, other, k) <==> k == i {
      assert !Stale(layout, docs, k);
    }
  }

  lemma PutBack(text: seq<Digest>, slot: nat, digest: Digest)
    requires slot < |text| && digest !in text
    ensures var put := text[slot := digest];
      Count(put, digest) == 1 && ReplaceFirst(put, digest, text[slot]) == text
  {
    var put := text[slot := digest];
    CountPut(text, digest, slot);
    CountOneIsFirst(put, digest, slot);
    ReplaceFirstAt(put, digest, text[slot], slot);
  }

  lemma CorrectsStale(layout: Layout, docs: Docs, i: nat)
    requires Fits(layout, docs) && Readable(layout, docs) && i < |Pins(layout)| && Stale(layout, docs, i)
    requires Corrected(layout, docs, i) == Some(docs.manifest)
    requires Count(docs.manifest, docs.manifest[Pins(layout)[i].slot]) == 1
    ensures Corrected(layout, docs, i + 1) ==
      Some(ReplaceFirst(docs.manifest, docs.manifest[Pins(layout)[i].slot], Actual(layout, docs, i)))
  {
  }

  lemma {:induction false} SkipsFresh(layout: Layout, docs: Docs, i: nat, n: nat)
    requires Fits(layout, docs) && Readable(layout, docs) && i <= n <= |Pins(layout)|
    requires forall k :: i <= k < n ==> !Stale(layout, docs, k)
    ensures Corrected(layout, docs, n) == Corrected(layout, docs, i)
  {
    if i < n {
      SkipsFresh(layout, docs, i, n - 1);
      assert !Stale(layout, docs, n - 1);
    }
  }

  /** A single stale pin, whose digest occurs once, is corrected and nothing else. */
  lemma OneStalePin(layout: Layout, docs: Docs, i: nat)
    requires Fits(layout, docs) && Readable(layout, docs) && i < |Pins(layout)|
    requires forall k :: 0 <= k < |Pins(layout)| ==> (Stale(layout, docs, k) <==> k == i)
    requires Count(docs.manifest, docs.manifest[Pins(layout)[i].slot]) == 1
    ensures Corrected(layout, docs, |Pins(layout)|) ==
      Some(ReplaceFirst(docs.manifest, docs.manifest[Pins(layout)[i].slot], Actual(layout, docs, i)))
  {
    SkipsFresh(layout, docs, 0, i);
    CorrectsStale(layout, docs, i);
    SkipsFresh(layout, docs, i + 1, |Pins(layout)|);
  }

  /** One spoiled pin, whose digest occurs nowhere else, is corrected back. */
  lemma CorrectsBack(layout: Layout, docs: Docs, i: nat, digest: Digest)
    requires PinsOtherFiles(layout) && Fits(layout, docs) && Readable(layout, docs) && PinsAgree(layout, docs)
    requires i < |Pins(layout)| && digest !in docs.manifest
    ensures var other := Spoiled(layout, docs, i, digest);
      Readable(layout, other) && Corrected(layout, other, |Pins(layout)|) == Some(docs.manifest)
  {
    SpoiledPins(layout, docs, i, digest);
    PutBack(docs.manifest, Pins(layout)[i].slot, digest);
    OneStalePin(layout, Spoiled(layout, docs, i, digest), i);
  }

  /** The pins agree, the stale amendment set digest first occurs as pin `i`, and the digest it should be is new. */
  predicate Tangled(layout: Layout, docs: Docs, i: nat, digest: Digest) {
    Fits(layout, docs) && Readable(layout, docs) && PinsAgree(layout, docs)
    && layout.amendmentDigest(ClauseDigests(layout, docs)) == Some(digest) && digest !in docs.manifest
    && i < |Pins(layout)| && FirstAt(docs.manifest, docs.manifest[layout.setId], Pins(layout)[i].slot)
  }

  /** Two documents that the rounds turn into each other: the second stage spoils a pin and the first repairs it. */
  lemma RoundsCanLoop(layout: Layout, docs: Docs, i: nat, digest: Digest)
    requires PinsOtherFiles(layout) && Tangled(layout, docs, i, digest)
    ensures var other := Spoiled(layout, docs, i, digest);
      Round(layout, docs) == Rewrote(other) && Round(layout, other) == Rewrote(docs)
  {
    var other := Spoiled(layout, docs, i, digest);
    assert docs.manifest[layout.setId] in docs.manifest;
    AgreeingPinsCorrectNothing(layout, docs, |Pins(layout)|);
    ReplaceFirstAt(docs.manifest, docs.manifest[layout.setId], digest, Pins(layout)[i].slot);
    SpoiledPins(layout, docs, i, digest);
    CorrectsBack(layout, docs, i, digest);
    assert Stale(layout, other, i);
  }

  lemma {:induction false} LoopForEver(step: Docs -> Docs, one: Docs, two: Docs, n: nat)
    requires step(one) == two && step(two) == one
    ensures Iterate(step, one, n) == if n % 2 == 0 then one else two
  {
    if n > 0 {
      LoopForEver(step, one, two, n - 1);
    }
  }

  /** Tangled documents never settle, however many runs are made. */
  lemma TangledNeverSettle(layout: Layout, docs: Docs, i: nat, digest: Digest, n: nat)
    requires PinsOtherFiles(layout) && Tangled(layout, docs, i, digest)
    ensures After(layout, docs, n) == if n % 2 == 0 then docs else Spoiled(layout, docs, i, digest)
    ensures !SettledAt(layout, docs, n) && !RefusesAt(layout, docs, n)
  {
    RoundsCanLoop(layout, docs, i, digest);
    LoopForEver(Commit(layout), docs, Spoiled(layout, docs, i, digest), n);
  }

  /** Tangled documents with any number of clauses: the first pinned file has the digest the set field wrongly holds. */
  lemma TangledExists(clauses: seq<Digest>, file: Digest, digest: Digest)
    requires file !in clauses && digest !in clauses && digest != file
    ensures var pins := seq(|clauses|, k requires 0 <= k < |clauses| => Pin(k + 1, (_, _) => Some(clauses[k])));
      var layout := Layout(
        [Pin(0, (_, _) => Some(file))], pins, |clauses| + 1, None, None, _ => file, _ => Some(digest));
      PinsOtherFiles(layout) && Tangled(layout, Docs([file] + clauses + [file], []), 0, digest)
  {
    var pins := seq(|clauses|, k requires 0 <= k < |clauses| => Pin(k + 1, (_, _) => Some(clauses[k])));
    var layout := Layout([Pin(0, (_, _) => Some(file))], pins, |clauses| + 1, None, None, _ => file, _ => Some(digest));
    var docs := Docs([file] + clauses + [file], []);
    forall i | 0 <= i < |Pins(layout)|
      ensures Pins(layout)[i].slot == i && docs.manifest[i] == if i == 0 then file else clauses[i - 1]
      ensures forall m, a :: Pins(layout)[i].actual(m, a) == Some(docs.manifest[i])
    {
      assert i > 0 ==> Pins(layout)[i] == pins[i - 1];
    }
  }

  /** A manifest that pins its own attestation never settles: the two digests would have to contain each other. That a
      digest is not contained in what it is the digest of is expressed by a rank that grows with every digest taken. */
  lemma SelfPinNeverSettles(layout: Layout, docs: Docs, i: nat, rank: Digest -> nat)
    requires Fits(layout, docs) && i < |Pins(layout)|
    requires forall manifest, word :: word in manifest ==> rank(word) < rank(layout.manifestDigest(manifest))
    requires forall manifest, attestation, word :: word in attestation ==>
      var actual := Pins(layout)[i].actual(manifest, attestation); actual.Some? ==> rank(word) < rank(actual.value)
    ensures Round(layout, docs) != Settled
  {
    SettledExactly(layout, docs);
    if layout.pin.Some? && Readable(layout, docs) {
      var pinned, digest := docs.attestation[layout.pin.value], docs.manifest[Pins(layout)[i].slot];
      assert pinned in docs.attestation && digest in docs.manifest;
      assert PinsAgree(layout, docs) ==> !Stale(layout, docs, i);
    }
  }
}
