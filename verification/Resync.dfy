/** Digest resynchronisation of the refreeze manifest and its attestation.

    A document is the list of the 64-digit digests in its text, in order; everything between them never changes. */
module Resync {
  import opened Common

  /** A digest slot of the manifest and what it should hold: the digest of committed bytes, if these can be read. The
      committed documents are arguments because a pinned file could be one of them. */
  datatype Pin = Pin(slot: nat, actual: (seq<Digest>, seq<Digest>) -> Option<Digest>)

  /** Where the fields are, and the two digests computed by the verifier's code: of the committed manifest, and of the
      amendments, which depends on the manifest's clause digests only. */
  datatype Layout = Layout(
    inventory: seq<Pin>, clauses: seq<Pin>, setId: nat, copy: Option<nat>, pin: Option<nat>,
    manifestDigest: seq<Digest> -> Digest, amendmentDigest: seq<Digest> -> Option<Digest>)

  datatype Docs = Docs(manifest: seq<Digest>, attestation: seq<Digest>)

  datatype Outcome = Refused | Settled | Rewrote(docs: Docs)

  function Pins(layout: Layout): seq<Pin> {
    layout.inventory + layout.clauses
  }

  /** The slots exist and are all different. */
  predicate Fits(layout: Layout, docs: Docs) {
    && (forall i :: 0 <= i < |Pins(layout)| ==>
      Pins(layout)[i].slot < |docs.manifest| && Pins(layout)[i].slot != layout.setId)
    && (forall i, j :: 0 <= i < j < |Pins(layout)| ==> Pins(layout)[i].slot != Pins(layout)[j].slot)
    && layout.setId < |docs.manifest|
    && (layout.copy.Some? ==> layout.copy.value < |docs.attestation|)
    && (layout.pin.Some? ==> layout.pin.value < |docs.attestation| && layout.copy != layout.pin)
  }

  function Count(text: seq<Digest>, word: Digest): nat {
    if text == [] then 0 else (if text[0] == word then 1 else 0) + Count(text[1..], word)
  }

  function ReplaceFirst(text: seq<Digest>, found: Digest, put: Digest): (out: seq<Digest>)
    ensures |out| == |text|
  {
    if text == [] then []
    else if text[0] == found then [put] + text[1..]
    else [text[0]] + ReplaceFirst(text[1..], found, put)
  }

  /** `word` occurs at `index` and nowhere before it. */
  predicate FirstAt(text: seq<Digest>, word: Digest, index: nat) {
    index < |text| && text[index] == word && forall i :: 0 <= i < index ==> text[i] != word
  }

  predicate Readable(layout: Layout, docs: Docs) {
    forall i :: 0 <= i < |Pins(layout)| ==> Pins(layout)[i].actual(docs.manifest, docs.attestation).Some?
  }

  function Actual(layout: Layout, docs: Docs, i: nat): Digest
    requires Readable(layout, docs) && i < |Pins(layout)|
  {
    Pins(layout)[i].actual(docs.manifest, docs.attestation).value
  }

  predicate Stale(layout: Layout, docs: Docs, i: nat)
    requires Fits(layout, docs) && Readable(layout, docs) && i < |Pins(layout)|
  {
    docs.manifest[Pins(layout)[i].slot] != Actual(layout, docs, i)
  }

  predicate PinsAgree(layout: Layout, docs: Docs)
    requires Fits(layout, docs) && Readable(layout, docs)
  {
    forall i :: 0 <= i < |Pins(layout)| ==> !Stale(layout, docs, i)
  }

  /** The first `n` stale pins corrected by the textual replacement, refused unless each stale digest occurs once. */
  function Corrected(layout: Layout, docs: Docs, n: nat): Option<seq<Digest>>
    requires Fits(layout, docs) && Readable(layout, docs) && n <= |Pins(layout)|
  {
    if n == 0 then Some(docs.manifest)
    else
      var text := Corrected(layout, docs, n - 1);
      if text.None? || !Stale(layout, docs, n - 1) then text
      else
        var found := docs.manifest[Pins(layout)[n - 1].slot];
        if Count(text.value, found) != 1 then None
        else Some(ReplaceFirst(text.value, found, Actual(layout, docs, n - 1)))
  }

  function ClauseDigests(layout: Layout, docs: Docs): seq<Digest>
    requires Fits(layout, docs)
  {
    seq(|layout.clauses|, i requires 0 <= i < |layout.clauses| =>
      assert Pins(layout)[|layout.inventory| + i] == layout.clauses[i]; docs.manifest[layout.clauses[i].slot])
  }

  /** One `--write` run on committed documents. */
  function Round(layout: Layout, docs: Docs): Outcome
    requires Fits(layout, docs)
  {
    if !Readable(layout, docs) || Corrected(layout, docs, |Pins(layout)|).None? then Refused
    else if !PinsAgree(layout, docs) then Rewrote(docs.(manifest := Corrected(layout, docs, |Pins(layout)|).value))
    else
      match layout.amendmentDigest(ClauseDigests(layout, docs))
      case None => Refused
      case Some(digest) =>
        var setId := docs.manifest[layout.setId];
        if setId != digest then Rewrote(docs.(manifest := ReplaceFirst(docs.manifest, setId, digest)))
        else if layout.copy.Some? && docs.attestation[layout.copy.value] != setId then
          Rewrote(docs.(attestation := ReplaceFirst(docs.attestation, docs.attestation[layout.copy.value], setId)))
        else if layout.pin.None? then Refused
        else
          var pinned := docs.attestation[layout.pin.value];
          if pinned == layout.manifestDigest(docs.manifest) then Settled
          else
            var digest := layout.manifestDigest(docs.manifest);
            Rewrote(docs.(attestation := ReplaceFirst(docs.attestation, pinned, digest)))
  }

  lemma {:induction false} ReplaceFirstAt(text: seq<Digest>, found: Digest, put: Digest, index: nat)
    requires FirstAt(text, found, index)
    ensures ReplaceFirst(text, found, put) == text[index := put]
  {
    if index > 0 {
      assert text[1..][index - 1] == found;
      ReplaceFirstAt(text[1..], found, put, index - 1);
      assert text[index := put] == [text[0]] + text[1..][index - 1 := put];
    }
  }

  lemma {:induction false} CountZero(text: seq<Digest>, word: Digest, i: nat)
    requires Count(text, word) == 0 && i < |text|
    ensures text[i] != word
  {
    if i > 0 { CountZero(text[1..], word, i - 1); }
  }

  /** A digest that occurs once occurs first where it occurs. */
  lemma {:induction false} CountOneIsFirst(text: seq<Digest>, word: Digest, index: nat)
    requires Count(text, word) == 1 && index < |text| && text[index] == word
    ensures FirstAt(text, word, index)
  {
    if index > 0 {
      if text[0] == word {
        CountZero(text[1..], word, index - 1);
      } else {
        CountOneIsFirst(text[1..], word, index - 1);
        forall i | 0 <= i < index ensures text[i] != word {
          if i > 0 { assert text[1..][i - 1] != word; }
        }
      }
    }
  }

  lemma {:induction false} CountUnique(text: seq<Digest>, word: Digest, index: nat)
    requires index < |text| && text[index] == word
    requires forall k :: 0 <= k < |text| && k != index ==> text[k] != word
    ensures Count(text, word) == 1
  {
    if index == 0 {
      CountAbsent(text[1..], word);
    } else {
      assert text[1..][index - 1] == word;
      forall k | 0 <= k < |text[1..]| && k != index - 1 ensures text[1..][k] != word {
        assert text[1..][k] == text[k + 1];
      }
      CountUnique(text[1..], word, index - 1);
    }
  }

  lemma {:induction false} CountAbsent(text: seq<Digest>, word: Digest)
    requires forall k :: 0 <= k < |text| ==> text[k] != word
    ensures Count(text, word) == 0
  {
    if text != [] {
      CountAbsent(text[1..], word);
    }
  }

  lemma {:induction false} CountedTwice(text: seq<Digest>, word: Digest, i: nat, j: nat)
    requires i < j < |text| && text[i] == word && text[j] == word
    ensures Count(text, word) >= 2
  {
    if i == 0 {
      if Count(text[1..], word) == 0 {
        CountZero(text[1..], word, j - 1);
      }
    } else {
      CountedTwice(text[1..], word, i - 1, j - 1);
    }
  }

  /** The digest at `slot` is nowhere else in the text. */
  predicate OnlyThere(text: seq<Digest>, slot: nat)
    requires slot < |text|
  {
    forall k :: 0 <= k < |text| && k != slot ==> text[k] != text[slot]
  }

  /** A digest that occurs is counted once exactly when it occurs nowhere else. */
  lemma CountedOnceExactly(text: seq<Digest>, slot: nat)
    requires slot < |text|
    ensures Count(text, text[slot]) == 1 <==> OnlyThere(text, slot)
  {
    if OnlyThere(text, slot) {
      CountUnique(text, text[slot], slot);
    } else {
      var k :| 0 <= k < |text| && k != slot && text[k] == text[slot];
      if k < slot {
        CountedTwice(text, text[slot], k, slot);
      } else {
        CountedTwice(text, text[slot], slot, k);
      }
    }
  }

  /** The manifest with the first `n` pins set to what they should hold. */
  function Fixed(layout: Layout, docs: Docs, n: nat): (text: seq<Digest>)
    requires Fits(layout, docs) && Readable(layout, docs) && n <= |Pins(layout)|
    ensures |text| == |docs.manifest|
  {
    if n == 0 then docs.manifest
    else Fixed(layout, docs, n - 1)[Pins(layout)[n - 1].slot := Actual(layout, docs, n - 1)]
  }

  lemma {:induction false} FixedElsewhere(layout: Layout, docs: Docs, n: nat, k: nat)
    requires Fits(layout, docs) && Readable(layout, docs) && n <= |Pins(layout)| && k < |docs.manifest|
    requires forall i :: 0 <= i < n ==> Pins(layout)[i].slot != k
    ensures Fixed(layout, docs, n)[k] == docs.manifest[k]
  {
    if n > 0 { FixedElsewhere(layout, docs, n - 1, k); }
  }

  lemma {:induction false} FixedPin(layout: Layout, docs: Docs, n: nat, i: nat)
    requires Fits(layout, docs) && Readable(layout, docs) && i < n <= |Pins(layout)|
    ensures Fixed(layout, docs, n)[Pins(layout)[i].slot] == Actual(layout, docs, i)
  {
    if i < n - 1 { FixedPin(layout, docs, n - 1, i); }
  }

  /** The counted textual replacements change exactly the slots of the stale pins. */
  lemma {:induction false} CorrectedIsFixed(layout: Layout, docs: Docs, n: nat)
    requires Fits(layout, docs) && Readable(layout, docs) && n <= |Pins(layout)| && Corrected(layout, docs, n).Some?
    ensures Corrected(layout, docs, n).value == Fixed(layout, docs, n)
  {
    if n > 0 {
      CorrectedIsFixed(layout, docs, n - 1);
      var text, slot := Fixed(layout, docs, n - 1), Pins(layout)[n - 1].slot;
      FixedElsewhere(layout, docs, n - 1, slot);
      if Stale(layout, docs, n - 1) {
        CountOneIsFirst(text, docs.manifest[slot], slot);
        ReplaceFirstAt(text, docs.manifest[slot], Actual(layout, docs, n - 1), slot);
      }
    }
  }

  /** A stale digest can be told apart when its turn comes: with the pins before it set to what they should hold, it is
      nowhere but in its own slot. */
  predicate ToldApart(layout: Layout, docs: Docs, n: nat)
    requires Fits(layout, docs) && Readable(layout, docs) && n < |Pins(layout)|
  {
    Stale(layout, docs, n) ==> OnlyThere(Fixed(layout, docs, n), Pins(layout)[n].slot)
  }

  predicate Distinguishable(layout: Layout, docs: Docs)
    requires Fits(layout, docs) && Readable(layout, docs)
  {
    forall n :: 0 <= n < |Pins(layout)| ==> ToldApart(layout, docs, n)
  }

  lemma OwnSlot(layout: Layout, docs: Docs, n: nat)
    requires Fits(layout, docs) && Readable(layout, docs) && n < |Pins(layout)|
    ensures Fixed(layout, docs, n)[Pins(layout)[n].slot] == docs.manifest[Pins(layout)[n].slot]
  {
    FixedElsewhere(layout, docs, n, Pins(layout)[n].slot);
  }

  lemma CorrectedNext(layout: Layout, docs: Docs, n: nat)
    requires Fits(layout, docs) && Readable(layout, docs) && n < |Pins(layout)|
    ensures Corrected(layout, docs, n + 1).Some? <==> Corrected(layout, docs, n).Some? && ToldApart(layout, docs, n)
  {
    if Corrected(layout, docs, n).Some? {
      CorrectedIsFixed(layout, docs, n);
      OwnSlot(layout, docs, n);
      CountedOnceExactly(Fixed(layout, docs, n), Pins(layout)[n].slot);
    }
  }

  lemma {:induction false} CorrectedExactly(layout: Layout, docs: Docs, n: nat)
    requires Fits(layout, docs) && Readable(layout, docs) && n <= |Pins(layout)|
    ensures Corrected(layout, docs, n).Some? <==> forall k :: 0 <= k < n ==> ToldApart(layout, docs, k)
  {
    if n > 0 {
      CorrectedExactly(layout, docs, n - 1);
      CorrectedNext(layout, docs, n - 1);
    }
  }

  /** Why a run refuses: a pin cannot be read, a stale digest cannot be told apart, there is no amendment digest once
      the pins agree, or no manifest pin in the attestation once the rest agrees. */
  predicate MustRefuse(layout: Layout, docs: Docs)
    requires Fits(layout, docs)
  {
    if !Readable(layout, docs) then true
    else if exists n :: 0 <= n < |Pins(layout)| && Stale(layout, docs, n) then !Distinguishable(layout, docs)
    else
      match layout.amendmentDigest(ClauseDigests(layout, docs))
      case None => true
      case Some(digest) =>
        && docs.manifest[layout.setId] == digest
        && (layout.copy.Some? ==> docs.attestation[layout.copy.value] == digest)
        && layout.pin.None?
  }

  /** A run refuses exactly for one of these reasons. */
  lemma RefusesExactly(layout: Layout, docs: Docs)
    requires Fits(layout, docs)
    ensures Round(layout, docs) == Refused <==> MustRefuse(layout, docs)
  {
    if Readable(layout, docs) {
      CorrectedExactly(layout, docs, |Pins(layout)|);
    }
  }

  /** The loop that collects the replacements; a file or a line range that cannot be read ends it. */
  method Collect(layout: Layout, docs: Docs) returns (replacements: Option<seq<(Digest, Digest)>>)
    requires Fits(layout, docs)
    ensures replacements.Some? <==> Readable(layout, docs)
    ensures replacements.Some? ==> replacements.value == Replacements(layout, docs, |Pins(layout)|)
  {
    var pins := Pins(layout);
    var found: seq<(Digest, Digest)> := [];
    for n := 0 to |pins|
      invariant forall i :: 0 <= i < n ==> pins[i].actual(docs.manifest, docs.attestation).Some?
      invariant found == Replacements(layout, docs, n)
    {
      var actual := pins[n].actual(docs.manifest, docs.attestation);
      if actual.None? {
        return None;
      }
      if actual.value != docs.manifest[pins[n].slot] {
        found := found + [(docs.manifest[pins[n].slot], actual.value)];
      }
    }
    return Some(found);
  }

  /** The loop that applies them, each refused unless it occurs exactly once. */
  method Apply(manifest: seq<Digest>, replacements: seq<(Digest, Digest)>) returns (text: Option<seq<Digest>>)
    ensures text == Applied(manifest, replacements)
  {
    var current := manifest;
    for k := 0 to |replacements|
      invariant Applied(manifest, replacements[..k]) == Some(current)
    {
      AppliedLast(manifest, replacements[..k], replacements[k].0, replacements[k].1);
      assert replacements[..k + 1] == replacements[..k] + [(replacements[k].0, replacements[k].1)];
      if Count(current, replacements[k].0) != 1 {
        AppliedPrefix(manifest, replacements, k + 1);
        return None;
      }
      current := ReplaceFirst(current, replacements[k].0, replacements[k].1);
    }
    assert replacements[..|replacements|] == replacements;
    return Some(current);
  }

  /** The two documents in the working tree, which a `--write` run rewrites in place. */
  class Worktree {
    var manifest: seq<Digest>
    var attestation: seq<Digest>

    function Contents(): Docs
      reads this
    {
      Docs(manifest, attestation)
    }

    constructor (docs: Docs)
      ensures Contents() == docs
    {
      manifest, attestation := docs.manifest, docs.attestation;
    }

    /** The tool's main run on committed documents. A refusal or a settled run writes nothing. */
    method ResyncWrite(layout: Layout) returns (outcome: Outcome)
      requires Fits(layout, Contents())
      modifies this
      ensures outcome == Round(layout, old(Contents()))
      ensures outcome == Refused <==> MustRefuse(layout, old(Contents()))
      ensures Contents() == if outcome.Rewrote? then outcome.docs else old(Contents())
    {
      var docs := Contents();
      RefusesExactly(layout, docs);
      var collected := Collect(layout, docs);
      if collected.None? {
        return Refused;
      }
      var replacements := collected.value;
      var text := Apply(manifest, replacements);
      ReplacementsApply(layout, docs, |Pins(layout)|);
      ReplacementsEmpty(layout, docs, |Pins(layout)|);
      if text.None? {
        return Refused;
      }
      if replacements != [] {
        manifest := text.value;
        return Rewrote(Contents());
      }
      var digest := layout.amendmentDigest(ClauseDigests(layout, docs));
      if digest.None? {
        return Refused;
      }
      var setId := manifest[layout.setId];
      if setId != digest.value {
        manifest := ReplaceFirst(manifest, setId, digest.value);
        return Rewrote(Contents());
      }
      if layout.copy.Some? && attestation[layout.copy.value] != setId {
        attestation := ReplaceFirst(attestation, attestation[layout.copy.value], setId);
        return Rewrote(Contents());
      }
      if layout.pin.None? {
        return Refused;
      }
      var pinned := attestation[layout.pin.value];
      if pinned == layout.manifestDigest(manifest) {
        return Settled;
      }
      attestation := ReplaceFirst(attestation, pinned, layout.manifestDigest(manifest));
      return Rewrote(Contents());
    }
  }

  /** The collected replacements of the first `n` pins, old digest and new. */
  function Replacements(layout: Layout, docs: Docs, n: nat): seq<(Digest, Digest)>
    requires Fits(layout, docs) && n <= |Pins(layout)|
    requires forall i :: 0 <= i < n ==> Pins(layout)[i].actual(docs.manifest, docs.attestation).Some?
  {
    if n == 0 then []
    else
      var pin, before := Pins(layout)[n - 1], Replacements(layout, docs, n - 1);
      var actual, found := pin.actual(docs.manifest, docs.attestation).value, docs.manifest[pin.slot];
      if actual != found then before + [(found, actual)] else before
  }

  /** The replacements applied one after the other, unless one of them does not occur exactly once. */
  function Applied(text: seq<Digest>, replacements: seq<(Digest, Digest)>): Option<seq<Digest>> {
    if replacements == [] then Some(text)
    else
      var before, last := Applied(text, replacements[..|replacements| - 1]), replacements[|replacements| - 1];
      if before.None? || Count(before.value, last.0) != 1 then None
      else Some(ReplaceFirst(before.value, last.0, last.1))
  }

  lemma {:induction false} AppliedPrefix(text: seq<Digest>, replacements: seq<(Digest, Digest)>, n: nat)
    requires n <= |replacements| && Applied(text, replacements[..n]).None?
    ensures Applied(text, replacements).None?
    decreases |replacements| - n
  {
    if n < |replacements| {
      assert replacements[..n + 1][..n] == replacements[..n];
      AppliedPrefix(text, replacements, n + 1);
    } else {
      assert replacements[..n] == replacements;
    }
  }

  lemma AppliedLast(text: seq<Digest>, before: seq<(Digest, Digest)>, found: Digest, put: Digest)
    ensures Applied(text, before + [(found, put)]) ==
      var mid := Applied(text, before);
      if mid.None? || Count(mid.value, found) != 1 then None else Some(ReplaceFirst(mid.value, found, put))
  {
    assert (before + [(found, put)])[..|before|] == before;
  }

  lemma {:induction false} ReplacementsApply(layout: Layout, docs: Docs, n: nat)
    requires Fits(layout, docs) && Readable(layout, docs) && n <= |Pins(layout)|
    ensures Applied(docs.manifest, Replacements(layout, docs, n)) == Corrected(layout, docs, n)
  {
    if n > 0 {
      ReplacementsApply(layout, docs, n - 1);
      if Stale(layout, docs, n - 1) {
        var found := docs.manifest[Pins(layout)[n - 1].slot];
        AppliedLast(docs.manifest, Replacements(layout, docs, n - 1), found, Actual(layout, docs, n - 1));
      }
    }
  }

  lemma {:induction false} ReplacementsEmpty(layout: Layout, docs: Docs, n: nat)
    requires Fits(layout, docs) && Readable(layout, docs) && n <= |Pins(layout)|
    ensures Replacements(layout, docs, n) == [] <==> forall i :: 0 <= i < n ==> !Stale(layout, docs, i)
  {
    if n > 0 {
      ReplacementsEmpty(layout, docs, n - 1);
      assert Replacements(layout, docs, n) == [] <==>
        Replacements(layout, docs, n - 1) == [] && !Stale(layout, docs, n - 1);
    }
  }
}
