/** Repository hygiene: the rule `/.symforge/` appended to a root `.gitignore`. */
module GitignoreRule {
  import opened Common
  import opened Utf8

  const LF: byte := 10
  const CR: byte := 13
  const UTF8_BOM: seq<byte> := [0xEF, 0xBB, 0xBF]
  /** The bytes of `/.symforge/`. */
  const CANONICAL_RULE: seq<byte> := [47, 46, 115, 121, 109, 102, 111, 114, 103, 101, 47]

  function Body(bytes: seq<byte>): seq<byte> {
    if UTF8_BOM <= bytes then bytes[3..] else bytes
  }

  predicate FirstEnding(bytes: seq<byte>, index: nat) {
    index < |bytes| && bytes[index] == LF && forall before :: 0 <= before < index ==> bytes[before] != LF
  }

  /** The first line ends in CRLF. */
  ghost predicate StartsCrlf(bytes: seq<byte>) {
    exists index: nat :: index > 0 && FirstEnding(bytes, index) && bytes[index - 1] == CR
  }

  /** `first_newline`: the ending of the first line, LF when there is none. */
  method FirstNewline(bytes: seq<byte>) returns (newline: seq<byte>)
    ensures newline == if StartsCrlf(bytes) then [CR, LF] else [LF]
  {
    for index := 0 to |bytes|
      invariant forall before :: 0 <= before < index ==> bytes[before] != LF
    {
      if bytes[index] == LF {
        assert FirstEnding(bytes, index);
        return if index > 0 && bytes[index - 1] == CR then [CR, LF] else [LF];
      }
    }
    return [LF];
  }

  function Newline(crlf: bool): seq<byte> {
    if crlf then [CR, LF] else [LF]
  }

  predicate EndsWith(bytes: seq<byte>, b: byte) {
    bytes != [] && bytes[|bytes| - 1] == b
  }

  /** What is written behind the original bytes: the rule on a line of its own. */
  function Addition(body: seq<byte>, crlf: bool, rule: seq<byte>): seq<byte> {
    if body == [] then rule
    else if EndsWith(body, LF) then rule + Newline(crlf)
    else Newline(crlf) + rule
  }

  ghost function Suffix(body: seq<byte>): seq<byte> {
    Addition(body, StartsCrlf(body), CANONICAL_RULE)
  }

  /** `append_canonical_rule`: the original, byte for byte, and the addition behind it. */
  method AppendCanonicalRule(original: seq<byte>) returns (updated: seq<byte>)
    ensures updated == original + Suffix(Body(original))
    ensures Body(updated) == Body(original) + Suffix(Body(original))
  {
    var body := Body(original);
    var rule := CANONICAL_RULE;
    updated := original;
    if body == [] {
      updated := updated + rule;
    } else {
      var newline := FirstNewline(body);
      var ended := body[|body| - 1] == LF;
      if !ended {
        updated := updated + newline;
      }
      updated := updated + rule;
      if ended {
        updated := updated + newline;
      }
    }
    assert updated == original + Addition(body, StartsCrlf(body), rule);
    BodyOfExtended(original, StartsCrlf(body), rule);
  }

  /** The rule is one line and cannot be mistaken for the mark. */
  predicate Plain(rule: seq<byte>) {
    rule != [] && rule[0] == 47 && LF !in rule && CR !in rule
  }

  lemma BodyOfExtended(original: seq<byte>, crlf: bool, rule: seq<byte>)
    requires Plain(rule)
    ensures var a := Addition(Body(original), crlf, rule); Body(original + a) == Body(original) + a
  {
    var a := Addition(Body(original), crlf, rule);
    assert a[0] in {47, 10, 13};
    if |original| < 3 {
      assert (original + a)[|original|] == a[0];
    } else {
      assert (original + a)[..3] == original[..3];
      assert (original + a)[3..] == original[3..] + a;
    }
  }

  /** Split at LF; the last piece is what follows the last LF. */
  function Split(bytes: seq<byte>): (pieces: seq<seq<byte>>)
    ensures pieces != []
  {
    if bytes == [] then [[]]
    else Extend(Split(bytes[..|bytes| - 1]), bytes[|bytes| - 1])
  }

  function Extend(pieces: seq<seq<byte>>, b: byte): (extended: seq<seq<byte>>)
    requires pieces != []
    ensures extended != []
  {
    if b == LF then pieces + [[]]
    else pieces[..|pieces| - 1] + [pieces[|pieces| - 1] + [b]]
  }

  function StripCr(line: seq<byte>): seq<byte> {
    if EndsWith(line, CR) then line[..|line| - 1] else line
  }

  function StripEach(pieces: seq<seq<byte>>): seq<seq<byte>> {
    seq(|pieces|, i requires 0 <= i < |pieces| => StripCr(pieces[i]))
  }

  /** The lines handed to the matcher. */
  function Lines(body: seq<byte>): seq<seq<byte>> {
    StripEach(Split(body))
  }

  lemma SplitSnoc(bytes: seq<byte>, b: byte)
    ensures Split(bytes + [b]) == Extend(Split(bytes), b)
  {
    assert (bytes + [b])[..|bytes|] == bytes;
  }

  lemma ExtendBehind(first: seq<seq<byte>>, rest: seq<seq<byte>>, b: byte)
    requires rest != []
    ensures Extend(first + rest, b) == first + Extend(rest, b)
  {
    assert (first + rest)[..|first + rest| - 1] == first + rest[..|rest| - 1];
  }

  function Front(pieces: seq<seq<byte>>): seq<seq<byte>>
    requires pieces != []
  {
    pieces[..|pieces| - 1]
  }

  /** Behind an LF the pieces are split on their own. */
  lemma {:induction false} SplitAppend(a: seq<byte>, b: seq<byte>)
    requires EndsWith(a, LF)
    ensures Split(a + b) == Front(Split(a)) + Split(b)
  {
    if b == [] {
      assert a + b == a;
      assert Split(a) == Extend(Split(a[..|a| - 1]), LF);
    } else {
      var init, last := b[..|b| - 1], b[|b| - 1];
      SplitAppend(a, init);
      assert a + b == (a + init) + [last];
      SplitSnoc(a + init, last);
      ExtendBehind(Front(Split(a)), Split(init), last);
    }
  }

  lemma {:induction false} SplitNoLf(a: seq<byte>)
    requires LF !in a
    ensures Split(a) == [a]
  {
    if a != [] {
      var init, last := a[..|a| - 1], a[|a| - 1];
      assert a == init + [last];
      assert last in a && LF !in init;
      SplitNoLf(init);
      SplitSnoc(init, last);
    }
  }

  /** The last piece is empty exactly when the bytes are, or end in LF, and ends in CR when they do. */
  lemma LastPiece(a: seq<byte>)
    ensures var p := Split(a); EndsWith(p[|p| - 1], CR) <==> EndsWith(a, CR)
    ensures var p := Split(a); p[|p| - 1] == [] <==> a == [] || EndsWith(a, LF)
  {
    if a != [] {
      assert Split(a) == Extend(Split(a[..|a| - 1]), a[|a| - 1]);
    }
  }

  lemma StripConcat(a: seq<seq<byte>>, b: seq<seq<byte>>)
    ensures StripEach(a + b) == StripEach(a) + StripEach(b)
  {
  }

  /** The original ends where a line does. */
  predicate Finished(body: seq<byte>) {
    body == [] || EndsWith(body, LF)
  }

  /** The lines before the rule, as read back from the updated file. */
  function LinesBefore(body: seq<byte>, crlf: bool): (lines: seq<seq<byte>>) {
    var last := |Lines(body)| - 1;
    if Finished(body) then Lines(body)[..last]
    else if crlf && EndsWith(body, CR) then Lines(body)[last := Lines(body)[last] + [CR]]
    else Lines(body)
  }

  lemma StripFront(pieces: seq<seq<byte>>, rest: seq<seq<byte>>)
    requires pieces != []
    ensures StripEach(Front(pieces) + rest) == Front(StripEach(pieces)) + StripEach(rest)
  {
  }

  lemma FinishedLines(body: seq<byte>, crlf: bool, rule: seq<byte>)
    requires Plain(rule) && EndsWith(body, LF)
    ensures Lines(body + Addition(body, crlf, rule)) == LinesBefore(body, crlf) + [rule, []]
  {
    var tail := rule + Newline(crlf);
    SplitAppend(body, tail);
    StripFront(Split(body), Split(tail));
    RuleLine(crlf, rule);
  }

  lemma RuleLine(crlf: bool, rule: seq<byte>)
    requires Plain(rule)
    ensures StripEach(Split(rule + Newline(crlf))) == [rule, []]
  {
    var line := if crlf then rule + [CR] else rule;
    assert rule + Newline(crlf) == line + [LF];
    SplitNoLf(line);
    SplitSnoc(line, LF);
    assert StripCr(line) == rule;
  }

  lemma UnfinishedLines(body: seq<byte>, crlf: bool, rule: seq<byte>)
    requires Plain(rule) && !Finished(body)
    ensures Lines(body + Addition(body, crlf, rule)) == LinesBefore(body, crlf) + [rule]
  {
    var ended := if crlf then body + [CR] else body;
    AdditionEnds(body, crlf, rule, ended);
    BehindEnded(ended, rule);
    EndedLines(body, crlf);
  }

  lemma AdditionEnds(body: seq<byte>, crlf: bool, rule: seq<byte>, ended: seq<byte>)
    requires !Finished(body) && ended == if crlf then body + [CR] else body
    ensures body + Addition(body, crlf, rule) == (ended + [LF]) + rule
  {
  }

  lemma BehindEnded(ended: seq<byte>, rule: seq<byte>)
    requires Plain(rule)
    ensures Lines((ended + [LF]) + rule) == StripEach(Split(ended)) + [rule]
  {
    SplitAppend(ended + [LF], rule);
    SplitSnoc(ended, LF);
    SplitNoLf(rule);
    assert Front(Split(ended + [LF])) == Split(ended);
    StripConcat(Split(ended), [rule]);
    assert StripEach([rule]) == [rule];
  }

  lemma StripExtend(pieces: seq<seq<byte>>, lines: seq<seq<byte>>)
    requires pieces != [] && lines == StripEach(pieces)
    ensures var last := |lines| - 1;
      StripEach(Extend(pieces, CR)) ==
        if EndsWith(pieces[last], CR) then lines[last := lines[last] + [CR]] else lines
  {
    var last := pieces[|pieces| - 1];
    assert StripCr(last + [CR]) == last;
    assert last == if EndsWith(last, CR) then StripCr(last) + [CR] else StripCr(last);
  }

  lemma EndedLines(body: seq<byte>, crlf: bool)
    requires !Finished(body)
    ensures StripEach(Split(if crlf then body + [CR] else body)) == LinesBefore(body, crlf)
  {
    SplitSnoc(body, CR);
    StripExtend(Split(body), Lines(body));
    LastPiece(body);
  }

  /** The updated file reads as the earlier lines, the rule, and nothing behind it. */
  lemma UpdatedLines(body: seq<byte>, crlf: bool, rule: seq<byte>)
    requires Plain(rule)
    ensures Lines(body + Addition(body, crlf, rule)) ==
      LinesBefore(body, crlf) + if EndsWith(body, LF) then [rule, []] else [rule]
  {
    if body == [] {
      SplitNoLf(rule);
      assert body + Addition(body, crlf, rule) == rule;
      assert StripCr(rule) == rule;
    } else if EndsWith(body, LF) {
      FinishedLines(body, crlf, rule);
    } else {
      UnfinishedLines(body, crlf, rule);
    }
  }

  /** The original ends in a lone CR and the ending written next starts with another. */
  ghost predicate SwallowsCr(body: seq<byte>) {
    EndsWith(body, CR) && StartsCrlf(body)
  }

  /**
   * The finished lines of the original are read back unchanged and in order.
   * A last line left unfinished is read back unchanged if and only if the
   * original does not end in CR while its first line ends in CRLF.
   */
  lemma EarlierLinesKeptExactly(body: seq<byte>)
    ensures var n, after := |Lines(body)|, Lines(body + Suffix(body));
      n <= |after| && after[..n - 1] == Lines(body)[..n - 1]
      && (!Finished(body) ==> (after[n - 1] == Lines(body)[n - 1] <==> !SwallowsCr(body)))
  {
    UpdatedLines(body, StartsCrlf(body), CANONICAL_RULE);
  }

  /** A CRLF file whose last line ends in CR: the line `a` is read back as `a` and a CR. */
  lemma SwallowedCr()
    ensures var body := [120, CR, LF, 97, CR];
      Lines(body) == [[120], [97]] && [[120], [97, CR]] <= Lines(body + Suffix(body))
  {
    var body: seq<byte> := [120, CR, LF, 97, CR];
    assert FirstEnding(body, 2);
    CrlfLines([120], [97]);
    assert body == (([120] + [CR]) + [LF]) + ([97] + [CR]);
    SwallowedLine(body, CANONICAL_RULE);
  }

  lemma SwallowedLine(body: seq<byte>, rule: seq<byte>)
    requires Plain(rule) && EndsWith(body, CR) && Lines(body) == [[120], [97]]
    ensures [[120], [97, CR]] <= Lines(body + Addition(body, true, rule))
  {
    UpdatedLines(body, true, rule);
    assert Lines(body)[1] + [CR] == [97, CR];
    assert LinesBefore(body, true) == [[120], [97, CR]];
  }

  /** What one line says about the directory `.symforge`. */
  datatype Verdict = Silent | Ignores | Keeps | Malformed

  /** `root_rule_is_effective`: the last line that speaks decides; a malformed line or text that is not UTF-8 fails. */
  function RuleIsEffective(content: seq<byte>, verdict: seq<byte> -> Verdict): Option<bool> {
    var body := Body(content);
    if !Valid(body) then None
    else if !NoneMalformed(Lines(body), verdict) then None
    else Some(LastVerdict(Lines(body), verdict) == Ignores)
  }

  function LastVerdict(lines: seq<seq<byte>>, verdict: seq<byte> -> Verdict): Verdict {
    if lines == [] then Silent
    else if verdict(lines[|lines| - 1]) != Silent then verdict(lines[|lines| - 1])
    else LastVerdict(lines[..|lines| - 1], verdict)
  }

  /** Line `i` speaks and no later one does. */
  predicate SpeaksLast(lines: seq<seq<byte>>, verdict: seq<byte> -> Verdict, i: nat)
    requires i < |lines|
  {
    verdict(lines[i]) != Silent && forall j :: i < j < |lines| ==> verdict(lines[j]) == Silent
  }

  /** The last line that speaks decides; without one there is silence. */
  lemma {:induction false} LastSpeakerDecides(lines: seq<seq<byte>>, verdict: seq<byte> -> Verdict)
    ensures (forall j :: 0 <= j < |lines| ==> verdict(lines[j]) == Silent) ==> LastVerdict(lines, verdict) == Silent
    ensures forall i :: 0 <= i < |lines| && SpeaksLast(lines, verdict, i) ==>
      LastVerdict(lines, verdict) == verdict(lines[i])
  {
    if lines != [] && verdict(lines[|lines| - 1]) == Silent {
      var init := lines[..|lines| - 1];
      LastSpeakerDecides(init, verdict);
      forall i | 0 <= i < |lines| && SpeaksLast(lines, verdict, i)
        ensures LastVerdict(lines, verdict) == verdict(lines[i])
      {
        assert i < |init| && init[i] == lines[i] && SpeaksLast(init, verdict, i);
      }
    }
  }

  lemma {:induction false} SomeSpeaksLast(lines: seq<seq<byte>>, verdict: seq<byte> -> Verdict) returns (i: nat)
    requires LastVerdict(lines, verdict) != Silent
    ensures i < |lines| && SpeaksLast(lines, verdict, i) && LastVerdict(lines, verdict) == verdict(lines[i])
  {
    if verdict(lines[|lines| - 1]) != Silent {
      i := |lines| - 1;
    } else {
      i := SomeSpeaksLast(lines[..|lines| - 1], verdict);
    }
  }

  /** The rule is in effect exactly for UTF-8 text without a malformed line, the last speaking line of which ignores. */
  lemma EffectiveExactly(content: seq<byte>, verdict: seq<byte> -> Verdict)
    ensures var lines := Lines(Body(content));
      RuleIsEffective(content, verdict) == Some(true) <==>
        && Valid(Body(content)) && (forall j :: 0 <= j < |lines| ==> verdict(lines[j]) != Malformed)
        && exists i :: 0 <= i < |lines| && SpeaksLast(lines, verdict, i) && verdict(lines[i]) == Ignores
    ensures var lines := Lines(Body(content));
      RuleIsEffective(content, verdict) == None <==>
        !Valid(Body(content)) || exists j :: 0 <= j < |lines| && verdict(lines[j]) == Malformed
  {
    var lines := Lines(Body(content));
    LastSpeakerDecides(lines, verdict);
    if LastVerdict(lines, verdict) != Silent {
      var i := SomeSpeaksLast(lines, verdict);
    }
  }

  /** How the matcher reads the two lines it is certain of. */
  predicate ReadsRule(verdict: seq<byte> -> Verdict) {
    verdict([]) == Silent && verdict(CANONICAL_RULE) == Ignores
  }

  lemma {:induction false} AsciiIsValid(bytes: seq<byte>)
    requires forall i :: 0 <= i < |bytes| ==> bytes[i] < 0x80
    ensures Valid(bytes)
  {
    if bytes != [] { AsciiIsValid(bytes[1..]); }
  }

  lemma AdditionIsValid(body: seq<byte>, crlf: bool, rule: seq<byte>)
    requires forall i :: 0 <= i < |rule| ==> rule[i] < 0x80
    ensures Valid(Addition(body, crlf, rule))
  {
    AsciiIsValid(Addition(body, crlf, rule));
  }

  lemma LastSpeaks(lines: seq<seq<byte>>, rule: seq<byte>, verdict: seq<byte> -> Verdict)
    requires verdict([]) == Silent && verdict(rule) == Ignores
    ensures LastVerdict(lines + [rule], verdict) == Ignores
    ensures LastVerdict(lines + [rule, []], verdict) == Ignores
  {
    assert (lines + [rule, []])[..|lines| + 1] == lines + [rule];
  }

  predicate NoneMalformed(lines: seq<seq<byte>>, verdict: seq<byte> -> Verdict) {
    forall i :: 0 <= i < |lines| ==> verdict(lines[i]) != Malformed
  }

  /** The swallowed CR turns the last line of the original into a malformed one. */
  ghost predicate CrMakesMalformed(body: seq<byte>, verdict: seq<byte> -> Verdict) {
    SwallowsCr(body) && verdict(Lines(body)[|Lines(body)| - 1] + [CR]) == Malformed
  }

  /**
   * Appended to a file that could be read and lacked the rule, the rule takes
   * effect, if and only if the one line the ending may alter is not malformed
   * by it; nothing can go wrong outside that corner.
   */
  lemma AppendedRuleIsEffective(original: seq<byte>, verdict: seq<byte> -> Verdict)
    requires ReadsRule(verdict) && RuleIsEffective(original, verdict).Some?
    ensures var body := Body(original); var updated := original + Suffix(body);
      RuleIsEffective(updated, verdict) == if CrMakesMalformed(body, verdict) then None else Some(true)
  {
    var body, crlf, rule := Body(original), StartsCrlf(Body(original)), CANONICAL_RULE;
    BodyOfExtended(original, crlf, rule);
    AdditionIsValid(body, crlf, rule);
    ValidConcat(body, Addition(body, crlf, rule));
    AppendedLines(body, crlf, rule, verdict);
  }

  const SPACE: byte := 32
  const BACKSLASH: byte := 92

  predicate Blank(b: byte) {
    9 <= b <= 13 || b == SPACE
  }

  function Trim(line: seq<byte>): seq<byte> {
    if line != [] && Blank(line[|line| - 1]) then Trim(line[..|line| - 1]) else line
  }

  predicate EscapedSpace(line: seq<byte>) {
    |line| >= 2 && line[|line| - 2] == BACKSLASH && line[|line| - 1] == SPACE
  }

  /** The last backslash escapes nothing. */
  predicate Dangling(line: seq<byte>) {
    EndsWith(line, BACKSLASH) && !Dangling(line[..|line| - 1])
  }

  /** A matcher that trims trailing blanks, unless a backslash and a space end the line, and finds a dangling backslash
      malformed. */
  function TrailingSpace(line: seq<byte>): Verdict {
    var pattern := if EscapedSpace(line) then line else Trim(line);
    if Dangling(pattern) then Malformed else if pattern == CANONICAL_RULE then Ignores else Silent
  }

  /** To this matcher a CR makes a line malformed, that was not, if and only if the line ends in an escaped space and
      would end in a dangling backslash without it. */
  lemma MalformedByCrExactly(line: seq<byte>)
    ensures TrailingSpace(line) != Malformed && TrailingSpace(line + [CR]) == Malformed <==>
      EscapedSpace(line) && Dangling(Trim(line))
  {
    assert (line + [CR])[..|line|] == line;
    assert Trim(line + [CR]) == Trim(line);
  }

  /** The corner occurs: a readable CRLF file without the rule that can no longer be read once the rule is appended. */
  lemma CrCanMakeMalformed()
    ensures var content: seq<byte> := [120, CR, LF, 97, 92, 32, CR];
      && ReadsRule(TrailingSpace) && CrMakesMalformed(Body(content), TrailingSpace)
      && RuleIsEffective(content, TrailingSpace) == Some(false)
      && RuleIsEffective(content + Suffix(Body(content)), TrailingSpace) == None
  {
    var content: seq<byte> := [120, CR, LF, 97, 92, 32, CR];
    TrailingSpaceLines();
    TrailingSpaceReads();
    AsciiIsValid(content);
    SpoiledByCr(content, [120], [97, BACKSLASH, SPACE], TrailingSpace);
  }

  lemma SpoiledByCr(content: seq<byte>, a: seq<byte>, b: seq<byte>, verdict: seq<byte> -> Verdict)
    requires ReadsRule(verdict) && Valid(content) && Body(content) == content && SwallowsCr(content)
    requires Lines(content) == [a, b] && verdict(a) == Silent == verdict(b) && verdict(b + [CR]) == Malformed
    ensures CrMakesMalformed(content, verdict) && RuleIsEffective(content, verdict) == Some(false)
    ensures RuleIsEffective(content + Suffix(content), verdict) == None
  {
    assert [a, b][..1] == [a] && [a][..0] == [];
    assert LastVerdict([a], verdict) == Silent;
    assert LastVerdict([a, b], verdict) == Silent;
    AppendedRuleIsEffective(content, verdict);
  }

  /** A finished CRLF line and one that ends in a lone CR. */
  lemma CrlfLines(a: seq<byte>, b: seq<byte>)
    requires LF !in a && LF !in b
    ensures Lines(((a + [CR]) + [LF]) + (b + [CR])) == [a, b]
  {
    SplitAppend((a + [CR]) + [LF], b + [CR]);
    SplitSnoc(a + [CR], LF);
    SplitNoLf(a + [CR]);
    SplitNoLf(b + [CR]);
    assert StripCr(a + [CR]) == a && StripCr(b + [CR]) == b;
  }

  lemma TrailingSpaceReads()
    ensures ReadsRule(TrailingSpace) && TrailingSpace([120]) == Silent
    ensures TrailingSpace([97, BACKSLASH, SPACE]) == Silent && TrailingSpace([97, BACKSLASH, SPACE] + [CR]) == Malformed
  {
    var line: seq<byte> := [97, BACKSLASH, SPACE];
    assert line[..2] == [97, BACKSLASH] && [97, BACKSLASH][..1] == [97];
    assert Trim(line) == [97, BACKSLASH];
    MalformedByCrExactly(line);
  }

  lemma TrailingSpaceLines()
    ensures var content: seq<byte> := [120, CR, LF, 97, 92, 32, CR];
      Body(content) == content && SwallowsCr(content) && Lines(content) == [[120], [97, 92, 32]]
  {
    var content: seq<byte> := [120, CR, LF, 97, 92, 32, CR];
    assert FirstEnding(content, 2);
    CrlfLines([120], [97, 92, 32]);
    assert content == (([120] + [CR]) + [LF]) + ([97, 92, 32] + [CR]);
  }

  lemma AppendedLines(body: seq<byte>, crlf: bool, rule: seq<byte>, verdict: seq<byte> -> Verdict)
    requires Plain(rule) && verdict([]) == Silent && verdict(rule) == Ignores && NoneMalformed(Lines(body), verdict)
    ensures var after := Lines(body + Addition(body, crlf, rule));
      LastVerdict(after, verdict) == Ignores
      && (NoneMalformed(after, verdict) <==>
        !(crlf && EndsWith(body, CR) && verdict(Lines(body)[|Lines(body)| - 1] + [CR]) == Malformed))
  {
    var before := LinesBefore(body, crlf);
    UpdatedLines(body, crlf, rule);
    LastSpeaks(before, rule, verdict);
    BehindIsSound(before, if EndsWith(body, LF) then [rule, []] else [rule], verdict);
    LinesBeforeMalformed(body, crlf, verdict);
  }

  lemma BehindIsSound(lines: seq<seq<byte>>, rest: seq<seq<byte>>, verdict: seq<byte> -> Verdict)
    requires NoneMalformed(rest, verdict)
    ensures NoneMalformed(lines + rest, verdict) <==> NoneMalformed(lines, verdict)
  {
    assert forall i :: 0 <= i < |lines| ==> (lines + rest)[i] == lines[i];
  }

  lemma LinesBeforeMalformed(body: seq<byte>, crlf: bool, verdict: seq<byte> -> Verdict)
    requires NoneMalformed(Lines(body), verdict)
    ensures NoneMalformed(LinesBefore(body, crlf), verdict) <==>
      !(crlf && EndsWith(body, CR) && verdict(Lines(body)[|Lines(body)| - 1] + [CR]) == Malformed)
  {
    var last := |Lines(body)| - 1;
    if crlf && EndsWith(body, CR) {
      assert LinesBefore(body, crlf)[last] == Lines(body)[last] + [CR];
    }
  }

  datatype Reason = NotFound | InvalidData | Other | Failure(code: int)

  /** What stands at the path: nothing, something that is refused or cannot be read, or a regular file. */
  datatype Entry = Absent | Refused(reason: Reason) | Regular(content: seq<byte>)

  datatype Authority = ExplicitProtected | ObserveOnly | MayAppend

  datatype Status = Effective | MissingRule | NoRootGitignore | Unverifiable(reason: Reason) | NotApplicable

  datatype Report = Report(status: Status, changed: bool)

  /** How far the leased write gets. */
  datatype Lane = NoLease | WriteRefused | FinishRefused | Committed

  function Judge(verdict: seq<byte> -> Verdict): seq<byte> -> Option<bool> {
    content => RuleIsEffective(content, verdict)
  }

  /** The report and the entry left behind; `meanwhile` is what stands at the path when it is read again. */
  ghost function Reconciled(found: Entry, authority: Authority, meanwhile: Entry, lane: Lane,
                            judge: seq<byte> -> Option<bool>): (Report, Entry) {
    if authority == ExplicitProtected then (Report(NotApplicable, false), found)
    else if found == Absent then (Report(NoRootGitignore, false), found)
    else if found.Refused? then (Report(Unverifiable(found.reason), false), found)
    else match judge(found.content)
      case None => (Report(Unverifiable(InvalidData), false), found)
      case Some(true) => (Report(Effective, false), found)
      case Some(false) =>
        if authority == ObserveOnly then (Report(MissingRule, false), found)
        else if meanwhile == Absent then (Report(Unverifiable(NotFound), false), meanwhile)
        else if meanwhile.Refused? then (Report(Unverifiable(meanwhile.reason), false), meanwhile)
        else if meanwhile != found || lane.NoLease? || lane.WriteRefused? then
          (Report(Unverifiable(Other), false), meanwhile)
        else
          var updated := Regular(found.content + Suffix(Body(found.content)));
          (if lane.Committed? then Report(Effective, true) else Report(Unverifiable(Other), false), updated)
  }

  class Repository {
    var gitignore: Entry

    constructor (entry: Entry)
      ensures gitignore == entry
    {
      gitignore := entry;
    }

    /** `reconcile_root_gitignore`; another process may put `meanwhile` at the path before the commit. */
    method Reconcile(authority: Authority, meanwhile: Entry, lane: Lane, verdict: seq<byte> -> Verdict)
      returns (report: Report)
      modifies this
      ensures (report, gitignore) == Reconciled(old(gitignore), authority, meanwhile, lane, Judge(verdict))
    {
      if authority == ExplicitProtected {
        return Report(NotApplicable, false);
      }
      if gitignore == Absent {
        return Report(NoRootGitignore, false);
      }
      if gitignore.Refused? {
        return Report(Unverifiable(gitignore.reason), false);
      }
      var original := gitignore.content;
      var effective := Judge(verdict)(original);
      if effective == None {
        return Report(Unverifiable(InvalidData), false);
      }
      if effective.value {
        return Report(Effective, false);
      }
      if authority == ObserveOnly {
        return Report(MissingRule, false);
      }
      var updated := AppendCanonicalRule(original);
      gitignore := meanwhile;
      if gitignore == Absent {
        return Report(Unverifiable(NotFound), false);
      }
      if gitignore.Refused? {
        return Report(Unverifiable(gitignore.reason), false);
      }
      if gitignore.content != original || lane.NoLease? || lane.WriteRefused? {
        return Report(Unverifiable(Other), false);
      }
      gitignore := Regular(updated);
      report := if lane.Committed? then Report(Effective, true) else Report(Unverifiable(Other), false);
    }
  }

  /** The file is there, is judged to lack the rule, may be appended to, and is still the same when it is read again. */
  predicate MayWrite(found: Entry, authority: Authority, meanwhile: Entry, judge: seq<byte> -> Option<bool>) {
    authority == MayAppend && found.Regular? && judge(found.content) == Some(false) && meanwhile == found
  }

  /** When each status is reported, and what is at the path afterwards. */
  lemma ReportExactly(found: Entry, authority: Authority, meanwhile: Entry, lane: Lane,
                      judge: seq<byte> -> Option<bool>)
    ensures var (report, left) := Reconciled(found, authority, meanwhile, lane, judge);
      && (report.status == NotApplicable <==> authority == ExplicitProtected)
      && (report.status == NoRootGitignore <==> authority != ExplicitProtected && found == Absent)
      && (report == Report(Effective, false) <==>
        authority != ExplicitProtected && found.Regular? && judge(found.content) == Some(true))
      && (report == Report(Effective, true) <==> MayWrite(found, authority, meanwhile, judge) && lane == Committed)
      && (report.status == MissingRule <==>
        authority == ObserveOnly && found.Regular? && judge(found.content) == Some(false))
      && (report.status.Unverifiable? ==> !report.changed)
      && (if MayWrite(found, authority, meanwhile, judge) && (lane == Committed || lane == FinishRefused)
          then left == Regular(found.content + Suffix(Body(found.content)))
          else left == found || left == meanwhile)
  {
  }

  /** A file is written over only while it still holds the bytes that were judged, and only behind them. */
  lemma OnlyAppends(found: Entry, authority: Authority, meanwhile: Entry, lane: Lane,
                    judge: seq<byte> -> Option<bool>)
    ensures var (report, left) := Reconciled(found, authority, meanwhile, lane, judge);
      (left == found || left == meanwhile ||
        (authority == MayAppend && found == meanwhile && found.Regular? && left.Regular? &&
          found.content < left.content && judge(found.content) == Some(false)))
      && (report.changed ==> report.status == Effective && left != found && authority == MayAppend)
  {
    if found.Regular? {
      assert |Suffix(Body(found.content))| > 0;
    }
  }

  lemma EffectiveIsTrue(found: Entry, authority: Authority, meanwhile: Entry, lane: Lane,
                        judge: seq<byte> -> Option<bool>)
    requires Reconciled(found, authority, meanwhile, lane, judge).0.status == Effective
    ensures found.Regular? && judge(found.content).Some?
    ensures var left := Reconciled(found, authority, meanwhile, lane, judge).1;
      left == if judge(found.content).value then found else Regular(found.content + Suffix(Body(found.content)))
  {
  }

  /**
   * After a report of `Effective` a second reconciliation, under any authority
   * and whatever others do, writes nothing.  It reports `Effective` again if
   * and only if the first did not append behind a lone CR that makes the last
   * line malformed.
   */
  lemma SecondReconcileWritesNothing(found: Entry, meanwhile: Entry, lane: Lane, authority: Authority,
                                     later: Entry, laterLane: Lane, verdict: seq<byte> -> Verdict)
    requires ReadsRule(verdict) && authority != ExplicitProtected
    requires Reconciled(found, MayAppend, meanwhile, lane, Judge(verdict)).0.status == Effective
    ensures var (first, left) := Reconciled(found, MayAppend, meanwhile, lane, Judge(verdict));
      var (second, after) := Reconciled(left, authority, later, laterLane, Judge(verdict));
      after == left && found.Regular?
      && second == Report(if first.changed && CrMakesMalformed(Body(found.content), verdict)
                          then Unverifiable(InvalidData) else Effective, false)
  {
    EffectiveIsTrue(found, MayAppend, meanwhile, lane, Judge(verdict));
    if RuleIsEffective(found.content, verdict) == Some(false) {
      AppendedRuleIsEffective(found.content, verdict);
    }
  }
}
