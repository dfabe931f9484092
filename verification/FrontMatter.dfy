/** The front matter of an execution-plan task file: parsed into fields and a body, and written back. */
module FrontMatter {
  import opened Common
  import opened StringOrder

  type Fields = map<string, string>

  datatype Document = Document(fields: Fields, body: string)

  datatype ParseError = MissingFrontMatter | InvalidLine(line: string)

  /** The characters `str.splitlines` breaks at. */
  predicate IsBreak(c: char) {
    var n := c as int;
    10 <= n <= 13 || 0x1C <= n <= 0x1E || n == 0x85 || n == 0x2028 || n == 0x2029
  }

  /** The characters `str.strip` removes. */
  predicate IsSpace(c: char) {
    var n := c as int;
    IsBreak(c) || n == 9 || n == 0x1F || n == 32 || n == 0xA0 || n == 0x1680 || 0x2000 <= n <= 0x200A ||
    n == 0x202F || n == 0x205F || n == 0x3000
  }

  predicate Stripped(s: string) {
    s == "" || (!IsSpace(s[0]) && !IsSpace(s[|s| - 1]))
  }

  /** The first index from `i` on that holds no space. */
  function Lead(s: string, i: nat): (k: nat)
    requires i <= |s|
    ensures i <= k <= |s| && (k < |s| ==> !IsSpace(s[k]))
    ensures forall j :: i <= j < k ==> IsSpace(s[j])
    decreases |s| - i
  {
    if i < |s| && IsSpace(s[i]) then Lead(s, i + 1) else i
  }

  /** The end of `s[i..j]` without the spaces it ends in. */
  function Trail(s: string, i: nat, j: nat): (k: nat)
    requires i <= j <= |s|
    ensures i <= k <= j && (i < k ==> !IsSpace(s[k - 1]))
    ensures forall l :: k <= l < j ==> IsSpace(s[l])
  {
    if i < j && IsSpace(s[j - 1]) then Trail(s, i, j - 1) else j
  }

  /** `str.strip`. */
  function Strip(s: string): (r: string)
    ensures Stripped(r)
  {
    s[Lead(s, 0)..Trail(s, Lead(s, 0), |s|)]
  }

  /** Between spaces, what begins and ends without one is what is left. */
  lemma StripIs(s: string, i: nat, k: nat)
    requires i <= k <= |s|
    requires forall j :: 0 <= j < |s| && (j < i || k <= j) ==> IsSpace(s[j])
    requires i < k ==> !IsSpace(s[i]) && !IsSpace(s[k - 1])
    ensures Strip(s) == s[i..k]
  {
    var lead := Lead(s, 0);
    var trail := Trail(s, lead, |s|);
    if i < k {
      assert lead == i;
      assert trail == k;
    } else {
      assert lead == |s|;
    }
  }

  lemma StripClean(s: string)
    requires Stripped(s)
    ensures Strip(s) == s
  {
    StripIs(s, 0, |s|);
  }

  lemma StripBehindSpace(s: string)
    requires Stripped(s)
    ensures Strip(" " + s) == s
  {
    var spaced := " " + s;
    assert spaced[0] == ' ' && spaced[1..] == s;
    if s != "" {
      assert spaced[1] == s[0] && spaced[|spaced| - 1] == s[|s| - 1];
    }
    StripIs(spaced, 1, |spaced|);
    assert spaced[1..|spaced|] == s;
  }

  predicate NoBreak(s: string) {
    forall i :: 0 <= i < |s| ==> !IsBreak(s[i])
  }

  function BreakIndex(s: string): (n: nat)
    ensures n <= |s| && NoBreak(s[..n])
    ensures n < |s| ==> IsBreak(s[n])
  {
    if s == "" || IsBreak(s[0]) then 0
    else
      var n := 1 + BreakIndex(s[1..]);
      assert s[..n] == [s[0]] + s[1..][..n - 1];
      n
  }

  /** What follows the first line break of `s`, CRLF being one break. */
  function BehindBreak(s: string): (rest: string)
    ensures s != "" ==> |rest| < |s|
  {
    var n := BreakIndex(s);
    if n == |s| then ""
    else if s[n] == '\r' && n + 1 < |s| && s[n + 1] == '\n' then s[n + 2..]
    else s[n + 1..]
  }

  /** `str.splitlines`. */
  function SplitLines(s: string): (lines: seq<string>)
    ensures forall line :: line in lines ==> NoBreak(line)
    decreases |s|
  {
    if s == "" then [] else [s[..BreakIndex(s)]] + SplitLines(BehindBreak(s))
  }

  function ColonIndex(s: string): (n: nat)
    ensures n <= |s| && ':' !in s[..n]
    ensures n < |s| ==> s[n] == ':'
    ensures n == |s| <==> ':' !in s
  {
    if s == "" || s[0] == ':' then 0
    else
      var n := 1 + ColonIndex(s[1..]);
      assert s == [s[0]] + s[1..] && s[..n] == [s[0]] + s[1..][..n - 1];
      n
  }

  /** The key and the value of a line, split at its first colon. */
  function FieldOf(line: string): (string, string)
    requires ':' in line
  {
    var n := ColonIndex(line);
    (Strip(line[..n]), Strip(line[n + 1..]))
  }

  /** One line of front matter; a later line for the same key wins. */
  function AddLine(fields: Fields, line: string): Result<Fields, ParseError> {
    if Strip(line) == "" then Ok(fields)
    else if ':' !in line then Err(InvalidLine(line))
    else Ok(fields[FieldOf(line).0 := FieldOf(line).1])
  }

  function FieldsOf(lines: seq<string>): Result<Fields, ParseError> {
    if lines == [] then Ok(map[])
    else
      match FieldsOf(lines[..|lines| - 1])
      case Err(e) => Err(e)
      case Ok(fields) => AddLine(fields, lines[|lines| - 1])
  }

  const OPEN: string := "---\n"
  const CLOSE: string := "\n---\n"

  /** The first place the closing fence is found. */
  function FindClose(s: string): (at: Option<nat>)
    ensures at.Some? ==> at.value + |CLOSE| <= |s|
  {
    if |s| < |CLOSE| then None
    else if CLOSE <= s then Some(0)
    else
      match FindClose(s[1..])
      case None => None
      case Some(n) => Some(n + 1)
  }

  /** What follows the opening fence. */
  function ParseFenced(rest: string): Result<Document, ParseError> {
    match FindClose(rest)
    case None => Err(MissingFrontMatter)
    case Some(at) =>
      match FieldsOf(SplitLines(rest[..at]))
      case Err(e) => Err(e)
      case Ok(fields) => Ok(Document(fields, rest[at + |CLOSE|..]))
  }

  /** What `parse_front_matter` means. */
  function Parse(text: string): Result<Document, ParseError> {
    if OPEN <= text then ParseFenced(text[|OPEN|..]) else Err(MissingFrontMatter)
  }

  /** `parse_front_matter`. */
  method ParseFrontMatter(text: string) returns (r: Result<Document, ParseError>)
    ensures r == Parse(text)
  {
    if !(OPEN <= text) {
      return Err(MissingFrontMatter);
    }
    var rest := text[|OPEN|..];
    var close := FindClose(rest);
    if close.None? {
      return Err(MissingFrontMatter);
    }
    var at := close.value;
    var parsed := ParseLines(SplitLines(rest[..at]));
    match parsed
    case Err(e) => r := Err(e);
    case Ok(fields) => r := Ok(Document(fields, rest[at + |CLOSE|..]));
  }

  method ParseLines(lines: seq<string>) returns (r: Result<Fields, ParseError>)
    ensures r == FieldsOf(lines)
  {
    var fields: Fields := map[];
    for i := 0 to |lines|
      invariant FieldsOf(lines[..i]) == Ok(fields)
    {
      var line := lines[i];
      assert lines[..i + 1][..i] == lines[..i];
      if Strip(line) == "" { continue; }
      if ':' !in line {
        StopsAt(lines, i + 1);
        return Err(InvalidLine(line));
      }
      var (key, value) := FieldOf(line);
      fields := fields[key := value];
    }
    assert lines[..|lines|] == lines;
    return Ok(fields);
  }

  lemma {:induction false} StopsAt(lines: seq<string>, n: nat)
    requires n <= |lines| && FieldsOf(lines[..n]).Err?
    ensures FieldsOf(lines) == FieldsOf(lines[..n])
  {
    if n == |lines| {
      assert lines[..n] == lines;
    } else {
      var init := lines[..|lines| - 1];
      assert init[..n] == lines[..n];
      StopsAt(init, n);
    }
  }

  /** A key or value as the parser leaves it. */
  predicate Clean(s: string) {
    Stripped(s) && NoBreak(s)
  }

  predicate CleanField(key: string, value: string) {
    Clean(key) && ':' !in key && Clean(value)
  }

  predicate WellFormed(fields: Fields) {
    forall key :: key in fields ==> CleanField(key, fields[key])
  }

  lemma WellFormedUpdate(fields: Fields, key: string, value: string)
    requires WellFormed(fields) && CleanField(key, value)
    ensures WellFormed(fields[key := value])
  {
  }

  lemma AddLineIsWellFormed(fields: Fields, line: string)
    requires WellFormed(fields) && NoBreak(line) && AddLine(fields, line).Ok?
    ensures WellFormed(AddLine(fields, line).value)
  {
    if ':' in line {
      FieldIsClean(line);
      WellFormedUpdate(fields, FieldOf(line).0, FieldOf(line).1);
    }
  }

  lemma PartsNoBreak(s: string, n: nat)
    requires NoBreak(s) && n < |s|
    ensures NoBreak(s[..n]) && NoBreak(s[n + 1..])
  {
    var tail := s[n + 1..];
    assert forall k :: 0 <= k < n ==> s[..n][k] == s[k];
    assert forall k :: 0 <= k < |tail| ==> tail[k] == s[n + 1 + k];
  }

  lemma PartsAreClean(key: string, value: string)
    requires NoBreak(key) && NoBreak(value) && ':' !in key
    ensures CleanField(Strip(key), Strip(value))
  {
    StrippedIsClean(key);
    StrippedIsClean(value);
  }

  lemma FieldIsClean(line: string)
    requires ':' in line && NoBreak(line)
    ensures CleanField(FieldOf(line).0, FieldOf(line).1)
  {
    var n := ColonIndex(line);
    PartsNoBreak(line, n);
    PartsAreClean(line[..n], line[n + 1..]);
  }

  lemma StrippedIsClean(s: string)
    requires NoBreak(s)
    ensures Clean(Strip(s))
    ensures ':' !in s ==> ':' !in Strip(s)
  {
    var r, lead := Strip(s), Lead(s, 0);
    assert forall i :: 0 <= i < |r| ==> r[i] == s[lead + i];
  }

  lemma {:induction false} FieldsAreWellFormed(lines: seq<string>)
    requires forall line :: line in lines ==> NoBreak(line)
    requires FieldsOf(lines).Ok?
    ensures WellFormed(FieldsOf(lines).value)
  {
    if lines != [] {
      FieldsAreWellFormed(lines[..|lines| - 1]);
      AddLineIsWellFormed(FieldsOf(lines[..|lines| - 1]).value, lines[|lines| - 1]);
    }
  }

  /** Whatever is parsed has clean keys and values. */
  lemma ParsedIsWellFormed(text: string)
    requires Parse(text).Ok?
    ensures WellFormed(Parse(text).value.fields)
  {
    var rest := text[|OPEN|..];
    FieldsAreWellFormed(SplitLines(rest[..FindClose(rest).value]));
  }

  // ---- What is parsed -------------------------------------------------------

  predicate Blank(line: string) {
    forall i :: 0 <= i < |line| ==> IsSpace(line[i])
  }

  /** The line gives `value` to `key`: these stand, but for spaces around them, on the two sides of its first colon. */
  predicate Gives(line: string, key: string, value: string) {
    exists n :: 0 <= n < |line| && line[n] == ':' && GivesAt(line, n, key, value)
  }

  predicate GivesAt(line: string, n: nat, key: string, value: string)
    requires n < |line|
  {
    ':' !in line[..n] && key == Strip(line[..n]) && value == Strip(line[n + 1..])
  }

  lemma BlankExactly(line: string)
    ensures Strip(line) == "" <==> Blank(line)
    ensures ':' in line ==> !Blank(line)
  {
    var lead := Lead(line, 0);
    if lead < |line| {
      assert lead < Trail(line, lead, |line|);
    }
    if ':' in line {
      var n := ColonIndex(line);
      assert line[n] == ':' && !IsSpace(':');
    }
  }

  lemma GivesExactly(line: string, key: string, value: string)
    requires ':' in line
    ensures Gives(line, key, value) <==> (key, value) == FieldOf(line)
  {
    var n := ColonIndex(line);
    assert GivesAt(line, n, FieldOf(line).0, FieldOf(line).1);
    forall m | 0 <= m < |line| && line[m] == ':' && ':' !in line[..m] ensures m == n {
      assert forall k :: 0 <= k < m ==> line[..m][k] == line[k];
      assert forall k :: 0 <= k < n ==> line[..n][k] == line[k];
    }
  }

  /** The last of the lines that give a value to `key` gives it this one. */
  ghost predicate LastGives(lines: seq<string>, key: string, value: string) {
    exists i :: 0 <= i < |lines| && LastGivesAt(lines, i, key, value)
  }

  ghost predicate LastGivesAt(lines: seq<string>, i: nat, key: string, value: string)
    requires i < |lines|
  {
    Gives(lines[i], key, value) && forall j, other :: i < j < |lines| ==> !Gives(lines[j], key, other)
  }

  predicate Legible(line: string) {
    Blank(line) || ':' in line
  }

  lemma LastGivesSnoc(lines: seq<string>, last: string, key: string, value: string)
    ensures LastGives(lines + [last], key, value) <==>
      Gives(last, key, value) || (LastGives(lines, key, value) && forall other :: !Gives(last, key, other))
  {
    var all := lines + [last];
    if Gives(last, key, value) {
      assert LastGivesAt(all, |lines|, key, value);
    }
    forall i | 0 <= i < |lines|
      ensures LastGivesAt(all, i, key, value) <==>
        LastGivesAt(lines, i, key, value) && forall other :: !Gives(last, key, other)
    {
      LastGivesAtSnoc(lines, last, i, key, value);
    }
  }

  lemma LastGivesAtSnoc(lines: seq<string>, last: string, i: nat, key: string, value: string)
    requires i < |lines|
    ensures LastGivesAt(lines + [last], i, key, value) <==>
      LastGivesAt(lines, i, key, value) && forall other :: !Gives(last, key, other)
  {
    var all := lines + [last];
    assert all[|lines|] == last && forall j :: 0 <= j < |lines| ==> all[j] == lines[j];
  }

  predicate Has(fields: Fields, key: string, value: string) {
    key in fields && fields[key] == value
  }

  lemma LineGives(fields: Fields, line: string, key: string, value: string)
    requires Legible(line)
    ensures AddLine(fields, line).Ok?
    ensures Has(AddLine(fields, line).value, key, value) <==>
      Gives(line, key, value) || (Has(fields, key, value) && forall other :: !Gives(line, key, other))
  {
    BlankExactly(line);
    if ':' in line {
      forall other ensures Gives(line, key, other) <==> (key, other) == FieldOf(line) {
        GivesExactly(line, key, other);
      }
    }
  }

  lemma OneLineMore(init: seq<string>, last: string)
    ensures FieldsOf(init + [last]).Ok? <==> FieldsOf(init).Ok? && Legible(last)
    ensures FieldsOf(init + [last]).Ok? ==>
      AddLine(FieldsOf(init).value, last) == Ok(FieldsOf(init + [last]).value)
  {
    assert (init + [last])[..|init|] == init;
    BlankExactly(last);
  }

  /** The lines are read exactly when each is blank or has a colon. */
  lemma {:induction false} LegibleExactly(lines: seq<string>)
    ensures FieldsOf(lines).Ok? <==> forall i :: 0 <= i < |lines| ==> Legible(lines[i])
  {
    if lines != [] {
      var init, last := lines[..|lines| - 1], lines[|lines| - 1];
      LegibleExactly(init);
      OneLineMore(init, last);
      assert lines == init + [last];
    }
  }

  /** The fields read from the lines hold for `key` what the last line for it gives. */
  ghost predicate ReadAsGiven(lines: seq<string>, key: string, value: string) {
    FieldsOf(lines).Ok? ==> (Has(FieldsOf(lines).value, key, value) <==> LastGives(lines, key, value))
  }

  lemma SnocGives(init: seq<string>, last: string, key: string, value: string)
    requires ReadAsGiven(init, key, value)
    ensures ReadAsGiven(init + [last], key, value)
  {
    OneLineMore(init, last);
    if FieldsOf(init + [last]).Ok? {
      LastGivesSnoc(init, last, key, value);
      LineGives(FieldsOf(init).value, last, key, value);
    }
  }

  predicate Extends(good: seq<string> -> bool, init: seq<string>, last: string) {
    good(init) ==> good(init + [last])
  }

  lemma {:induction false} LineByLine(good: seq<string> -> bool, lines: seq<string>)
    requires good([]) && forall init, last :: Extends(good, init, last)
    ensures good(lines)
  {
    if lines != [] {
      LineByLine(good, lines[..|lines| - 1]);
      assert Extends(good, lines[..|lines| - 1], lines[|lines| - 1]);
      assert lines == lines[..|lines| - 1] + [lines[|lines| - 1]];
    }
  }

  /** A key has the value that the last line for it gives. */
  lemma FieldsExactly(lines: seq<string>, key: string, value: string)
    ensures ReadAsGiven(lines, key, value)
  {
    var good := (read: seq<string>) => ReadAsGiven(read, key, value);
    forall init, last ensures Extends(good, init, last) {
      if good(init) {
        SnocGives(init, last, key, value);
      }
    }
    LineByLine(good, lines);
  }

  /** The closing fence is at `at`, and nowhere before. */
  predicate FirstClose(s: string, at: nat) {
    ClosesAt(s, at) && forall j :: 0 <= j < at ==> !ClosesAt(s, j)
  }

  predicate ClosesAt(s: string, at: nat) {
    at + 5 <= |s| && s[at..at + 5] == "\n---\n"
  }

  lemma ClosesShift(s: string, j: nat)
    requires s != "" && j > 0
    ensures ClosesAt(s, j) <==> ClosesAt(s[1..], j - 1)
  {
    if j + 5 <= |s| {
      assert s[1..][j - 1..j - 1 + 5] == s[j..j + 5];
    }
  }

  lemma FirstCloseShift(s: string, at: nat)
    requires s != "" && at > 0 && !ClosesAt(s, 0)
    ensures FirstClose(s, at) <==> FirstClose(s[1..], at - 1)
  {
    ClosesShift(s, at);
    forall j | 0 <= j < at - 1 ensures ClosesAt(s[1..], j) <==> ClosesAt(s, j + 1) {
      ClosesShift(s, j + 1);
    }
    if FirstClose(s[1..], at - 1) {
      forall j | 0 <= j < at ensures !ClosesAt(s, j) {
        if j > 0 { ClosesShift(s, j); }
      }
    }
  }

  lemma ClosesHere(s: string)
    ensures ClosesAt(s, 0) <==> |s| >= |CLOSE| && CLOSE <= s
  {
    if |s| >= 5 { assert s[0..0 + 5] == s[..5]; }
  }

  lemma {:induction false} FindCloseExactly(s: string, at: nat)
    ensures FindClose(s) == Some(at) <==> FirstClose(s, at)
  {
    ClosesHere(s);
    if |s| >= |CLOSE| && !(CLOSE <= s) && at > 0 {
      FindCloseExactly(s[1..], at - 1);
      FirstCloseShift(s, at);
    }
  }

  /** `document` is what a text holds whose front matter ends at `at` behind the opening fence. */
  ghost predicate Holds(rest: string, at: nat, document: Document) {
    && FirstClose(rest, at) && document.body == rest[at + 5..]
    && var lines := SplitLines(rest[..at]);
      && (forall i :: 0 <= i < |lines| ==> Legible(lines[i]))
      && forall key, value :: Has(document.fields, key, value) <==> LastGives(lines, key, value)
  }

  /** A text parses exactly when it opens with a fence, has a closing one and only legible lines between them. The body
      is what follows the first closing fence, and each field has the value of the last line that gives it one. */
  lemma ParsesExactly(text: string, document: Document)
    ensures Parse(text) == Ok(document) <==> "---\n" <= text && exists at :: Holds(text[4..], at, document)
  {
    assert |OPEN| == 4;
    if "---\n" <= text {
      var rest := text[4..];
      if Parse(text) == Ok(document) {
        var at := FindClose(rest).value;
        ParsedHolds(rest, at, document);
      }
      if at :| Holds(rest, at, document) {
        HeldIsParsed(rest, at, document);
      }
    }
  }

  lemma ParsedHolds(rest: string, at: nat, document: Document)
    requires FindClose(rest) == Some(at) && ParseFenced(rest) == Ok(document)
    ensures Holds(rest, at, document)
  {
    FindCloseExactly(rest, at);
    var lines := SplitLines(rest[..at]);
    LegibleExactly(lines);
    forall key, value ensures Has(document.fields, key, value) <==> LastGives(lines, key, value) {
      FieldsExactly(lines, key, value);
    }
  }

  lemma HeldIsParsed(rest: string, at: nat, document: Document)
    requires Holds(rest, at, document)
    ensures ParseFenced(rest) == Ok(document)
  {
    FindCloseExactly(rest, at);
    var lines := SplitLines(rest[..at]);
    LegibleExactly(lines);
    forall key, value ensures Has(document.fields, key, value) <==> Has(FieldsOf(lines).value, key, value) {
      FieldsExactly(lines, key, value);
    }
    SameFields(FieldsOf(lines).value, document.fields);
  }

  lemma SameFields(a: Fields, b: Fields)
    requires forall key, value :: Has(a, key, value) <==> Has(b, key, value)
    ensures a == b
  {
    forall key ensures key in a <==> key in b {
      assert key in a ==> Has(a, key, a[key]);
      assert key in b ==> Has(b, key, b[key]);
    }
    forall key | key in a ensures a[key] == b[key] {
      assert Has(a, key, a[key]);
    }
  }

  // ---- Writing ------------------------------------------------------------

  const ORDERED_KEYS: seq<string> :=
    ["doc_type", "task_id", "title", "status", "sprint", "parent_plan", "prev_task", "next_task", "created", "updated"]

  function FieldLine(key: string, value: string): string {
    key + ": " + value
  }

  function FieldLines(order: seq<string>, fields: Fields): (lines: seq<string>)
    requires forall key :: key in order ==> key in fields
    ensures |lines| == |order|
    ensures forall i :: 0 <= i < |order| ==> lines[i] == FieldLine(order[i], fields[order[i]])
  {
    if order == [] then []
    else
      FieldLines(order[..|order| - 1], fields) + [FieldLine(order[|order| - 1], fields[order[|order| - 1]])]
  }

  /** `"\n".join(lines)`. */
  function Join(lines: seq<string>): string {
    if lines == [] then ""
    else if |lines| == 1 then lines[0]
    else lines[0] + "\n" + Join(lines[1..])
  }

  function Written(lines: seq<string>, body: string): string {
    Join(["---"] + lines + ["---"]) + "\n" + body
  }

  function Present(keys: set<string>, known: seq<string>): (r: seq<string>)
    ensures forall key :: key in r <==> key in known && key in keys
  {
    if known == [] then []
    else
      var rest, last := Present(keys, known[..|known| - 1]), known[|known| - 1];
      assert known == known[..|known| - 1] + [last];
      if last in keys then rest + [last] else rest
  }

  predicate Ascending(keys: seq<string>) {
    forall i, j :: 0 <= i < j < |keys| ==> Less(keys[i], keys[j])
  }

  /** The known keys in their fixed order, then all others in ascending order. */
  ghost predicate IsKeyOrder(known: seq<string>, keys: set<string>, order: seq<string>) {
    var first := Present(keys, known);
    (forall key :: key in order <==> key in keys) && first <= order && IsRest(known, order[|first|..])
  }

  predicate IsRest(known: seq<string>, rest: seq<string>) {
    Ascending(rest) && forall key :: key in rest ==> key !in known
  }

  ghost predicate IsSerialization(document: Document, text: string) {
    exists order :: IsKeyOrder(ORDERED_KEYS, document.fields.Keys, order) && text == InOrder(document, order)
  }

  function InOrder(document: Document, order: seq<string>): string
    requires forall key :: key in order ==> key in document.fields
  {
    Written(FieldLines(order, document.fields), document.body)
  }

  ghost predicate IsLeast(keys: set<string>, least: string) {
    least in keys && forall key :: key in keys ==> key == least || Less(least, key)
  }

  lemma {:induction false} HasLeast(keys: set<string>)
    requires keys != {}
    ensures exists least :: IsLeast(keys, least)
  {
    var some :| some in keys;
    var others := keys - {some};
    assert forall key :: key in keys ==> key == some || key in others;
    if others == {} {
      assert IsLeast(keys, some);
    } else {
      HasLeast(others);
      var least :| IsLeast(others, least);
      LessTotal(least, some);
      if Less(least, some) {
        assert IsLeast(keys, least);
      } else {
        forall key | key in others && key != least ensures Less(some, key) {
          LessTransitive(some, least, key);
        }
        assert IsLeast(keys, some);
      }
    }
  }

  /** `sorted(keys)`. */
  method SortKeys(keys: set<string>) returns (sorted: seq<string>)
    ensures Ascending(sorted) && forall key :: key in sorted <==> key in keys
  {
    sorted := [];
    var rest := keys;
    while rest != {}
      invariant Ascending(sorted) && rest <= keys
      invariant forall key :: key in sorted <==> key in keys && key !in rest
      invariant forall i, key :: 0 <= i < |sorted| && key in rest ==> Less(sorted[i], key)
    {
      HasLeast(rest);
      var least :| least in rest && forall key :: key in rest ==> key == least || Less(least, key);
      sorted, rest := sorted + [least], rest - {least};
    }
  }

  /** The lines of the known keys, and the keys they show. */
  method KnownLines(fields: Fields, known: seq<string>) returns (lines: seq<string>, seen: set<string>)
    ensures forall key :: key in seen <==> key in known && key in fields
    ensures lines == FieldLines(Present(fields.Keys, known), fields)
  {
    seen, lines := {}, [];
    for i := 0 to |known|
      invariant forall key :: key in seen <==> key in known[..i] && key in fields
      invariant lines == FieldLines(Present(fields.Keys, known[..i]), fields)
    {
      var key := known[i];
      PresentStep(fields.Keys, known, i);
      if key in fields {
        FieldLinesSnoc(Present(fields.Keys, known[..i]), key, fields);
        lines, seen := lines + [FieldLine(key, fields[key])], seen + {key};
      }
    }
    assert known[..|known|] == known;
  }

  lemma PresentStep(keys: set<string>, known: seq<string>, i: nat)
    requires i < |known|
    ensures Present(keys, known[..i + 1]) ==
      if known[i] in keys then Present(keys, known[..i]) + [known[i]] else Present(keys, known[..i])
  {
    assert known[..i + 1][..i] == known[..i];
  }

  lemma AscendingSnoc(sorted: seq<string>, i: nat, rest: seq<string>)
    requires Ascending(sorted) && i < |sorted| && Ascending(rest) && forall key :: key in rest ==> key in sorted[..i]
    ensures Ascending(rest + [sorted[i]])
  {
    forall j | 0 <= j < |rest| ensures Less(rest[j], sorted[i]) {
      assert rest[j] in sorted[..i];
    }
  }

  /** The lines of all keys not yet seen, in ascending order. */
  method OtherLines(fields: Fields, seen: set<string>) returns (lines: seq<string>, ghost rest: seq<string>)
    ensures Ascending(rest) && forall key :: key in rest <==> key in fields && key !in seen
    ensures lines == FieldLines(rest, fields)
  {
    var sorted := SortKeys(fields.Keys);
    lines, rest := [], [];
    for i := 0 to |sorted|
      invariant Ascending(rest) && forall key :: key in rest <==> key in sorted[..i] && key !in seen
      invariant lines == FieldLines(rest, fields)
    {
      var key := sorted[i];
      assert sorted[..i + 1] == sorted[..i] + [key];
      if key !in seen {
        AscendingSnoc(sorted, i, rest);
        FieldLinesSnoc(rest, key, fields);
        lines, rest := lines + [FieldLine(key, fields[key])], rest + [key];
      }
    }
  }

  /** `serialize_task`. */
  method SerializeTask(document: Document) returns (text: string)
    ensures IsSerialization(document, text)
  {
    var first, seen := KnownLines(document.fields, ORDERED_KEYS);
    ghost var rest: seq<string>;
    var others;
    others, rest := OtherLines(document.fields, seen);
    var lines := ["---"] + (first + others) + ["---"];
    text := Join(lines) + "\n" + document.body;
    OrderIsKeyOrder(ORDERED_KEYS, document, rest);
  }

  lemma OrderIsKeyOrder(known: seq<string>, document: Document, rest: seq<string>)
    requires Ascending(rest) && forall key :: key in rest <==> key in document.fields && key !in known
    ensures var first := Present(document.fields.Keys, known);
      IsKeyOrder(known, document.fields.Keys, first + rest)
      && FieldLines(first + rest, document.fields) ==
        FieldLines(first, document.fields) + FieldLines(rest, document.fields)
  {
    var first := Present(document.fields.Keys, known);
    assert (first + rest)[|first|..] == rest;
    assert forall key :: key in first + rest <==> key in first || key in rest;
    FieldLinesConcat(first, rest, document.fields);
  }

  lemma FieldLinesConcat(a: seq<string>, b: seq<string>, fields: Fields)
    requires forall key :: key in a || key in b ==> key in fields
    ensures FieldLines(a + b, fields) == FieldLines(a, fields) + FieldLines(b, fields)
  {
  }

  lemma FieldLinesSnoc(order: seq<string>, key: string, fields: Fields)
    requires (forall k :: k in order ==> k in fields) && key in fields
    ensures FieldLines(order + [key], fields) == FieldLines(order, fields) + [FieldLine(key, fields[key])]
  {
    assert (order + [key])[..|order|] == order;
  }

  lemma {:induction false} JoinSnoc(lines: seq<string>, last: string)
    requires lines != []
    ensures Join(lines + [last]) == Join(lines) + "\n" + last
  {
    if |lines| == 1 {
      assert (lines + [last])[1..] == [last];
    } else {
      JoinSnoc(lines[1..], last);
      assert (lines + [last])[1..] == lines[1..] + [last];
      assert (lines + [last])[0] == lines[0];
    }
  }

  /** With at least one line the text is the opening fence, the lines, the closing fence and the body. */
  lemma WrittenLayout(lines: seq<string>, body: string)
    requires lines != []
    ensures Written(lines, body) == OPEN + (Join(lines) + (CLOSE + body))
  {
    FencedLayout("---", lines, body);
    assert "---" + "\n" == OPEN && "\n" + "---" + "\n" == CLOSE;
  }

  lemma FencedLayout(fence: string, lines: seq<string>, body: string)
    requires lines != []
    ensures Join([fence] + lines + [fence]) + "\n" + body ==
      (fence + "\n") + (Join(lines) + (("\n" + fence + "\n") + body))
  {
    JoinSnoc([fence] + lines, fence);
    assert ([fence] + lines)[1..] == lines;
    Regroup(fence, Join(lines), body);
  }

  lemma Regroup(fence: string, front: string, body: string)
    ensures fence + "\n" + front + "\n" + fence + "\n" + body ==
      (fence + "\n") + (front + (("\n" + fence + "\n") + body))
  {
  }

  // ---- Reading back -------------------------------------------------------

  /** A line the writer produces: it holds a colon and no break. */
  predicate FieldShaped(line: string) {
    ':' in line && NoBreak(line)
  }

  function Shift(at: Option<nat>, count: nat): Option<nat> {
    match at
    case None => None
    case Some(n) => Some(n + count)
  }

  lemma {:induction false} CloseBehindLine(line: string, s: string)
    requires NoBreak(line)
    ensures FindClose(line + s) == Shift(FindClose(s), |line|)
  {
    if line == "" {
      assert line + s == s;
    } else {
      assert (line + s)[1..] == line[1..] + s;
      assert (line + s)[0] == line[0] && CLOSE[0] == '\n';
      CloseBehindLine(line[1..], s);
    }
  }

  lemma {:induction false} CloseBehindLines(lines: seq<string>, s: string)
    requires lines != [] && CLOSE <= s
    requires forall i :: 0 <= i < |lines| ==> FieldShaped(lines[i])
    ensures FindClose(Join(lines) + s) == Some(|Join(lines)|)
  {
    if |lines| == 1 {
      CloseBehindLine(lines[0], s);
    } else {
      CloseBehindLines(lines[1..], s);
      CloseBehindBreak(lines[1..], s);
      CloseCombines(lines[0], Join(lines[1..]), s);
    }
  }

  lemma CloseCombines(line: string, rest: string, s: string)
    requires NoBreak(line) && FindClose("\n" + (rest + s)) == Some(|rest| + 1)
    ensures FindClose(line + "\n" + rest + s) == Some(|line + "\n" + rest|)
  {
    CloseBehindLine(line, "\n" + (rest + s));
    assert line + "\n" + rest + s == line + ("\n" + (rest + s));
  }

  lemma CloseBehindBreak(lines: seq<string>, s: string)
    requires lines != [] && FieldShaped(lines[0])
    ensures FindClose("\n" + (Join(lines) + s)) == Shift(FindClose(Join(lines) + s), 1)
  {
    var text := Join(lines) + s;
    var tail := text[|lines[0]|..];
    assert text == lines[0] + tail;
    NoFence(lines[0], tail);
    assert ("\n" + text)[1..] == text;
    assert CLOSE[1..] == OPEN;
  }

  /** A field line is not a fence, whatever follows it. */
  lemma NoFence(line: string, rest: string)
    requires FieldShaped(line)
    ensures !(OPEN <= line + rest)
  {
    var i :| 0 <= i < |line| && line[i] == ':';
    assert (line + rest)[i] == ':';
    assert i >= 4 ==> (line + rest)[3] == line[3] && !IsBreak(line[3]);
  }

  lemma {:induction false} SplitJoined(lines: seq<string>)
    requires forall i :: 0 <= i < |lines| ==> FieldShaped(lines[i])
    ensures SplitLines(Join(lines)) == lines
  {
    if |lines| == 1 {
      BreakBehind(lines[0], "");
      assert lines[0] + "" == lines[0];
    } else if |lines| > 1 {
      SplitJoined(lines[1..]);
      SplitFirst(lines[0], Join(lines[1..]));
    }
  }

  lemma SplitFirst(line: string, rest: string)
    requires NoBreak(line)
    ensures SplitLines(line + "\n" + rest) == [line] + SplitLines(rest)
  {
    var s := line + "\n" + rest;
    assert s == line + ("\n" + rest);
    BreakBehind(line, "\n" + rest);
    assert s[|line|] == '\n' && s[..|line|] == line && s[|line| + 1..] == rest;
  }

  lemma {:induction false} BreakBehind(line: string, s: string)
    requires NoBreak(line) && (s == "" || IsBreak(s[0]))
    ensures BreakIndex(line + s) == |line|
  {
    if line == "" {
      assert line + s == s;
    } else {
      assert (line + s)[1..] == line[1..] + s;
      BreakBehind(line[1..], s);
    }
  }

  lemma {:induction false} ColonBehind(key: string, rest: string)
    requires ':' !in key
    ensures ColonIndex(key + (":" + rest)) == |key|
  {
    if key == "" {
      assert key + (":" + rest) == ":" + rest;
    } else {
      assert key[0] in key && forall c :: c in key[1..] ==> c in key;
      assert (key + (":" + rest))[1..] == key[1..] + (":" + rest);
      ColonBehind(key[1..], rest);
    }
  }

  /** A field line parses as the field it was made from. */
  lemma FieldLineParses(fields: Fields, key: string, value: string)
    requires CleanField(key, value)
    ensures FieldShaped(FieldLine(key, value))
    ensures AddLine(fields, FieldLine(key, value)) == Ok(fields[key := value])
  {
    var line := FieldLine(key, value);
    FieldLineShape(key, value);
    ColonBehind(key, " " + value);
    ColonIsNoSpace(line, |key|);
    AddsCleanField(fields, line, key, value);
  }

  lemma AddsCleanField(fields: Fields, line: string, key: string, value: string)
    requires CleanField(key, value) && ColonIndex(line) == |key| < |line| && Strip(line) != ""
    requires line[..|key|] == key && line[|key| + 1..] == " " + value
    ensures AddLine(fields, line) == Ok(fields[key := value])
  {
    assert FieldOf(line) == (Strip(key), Strip(" " + value));
    StripBehindSpace(value);
    StripClean(key);
  }

  lemma FieldLineShape(key: string, value: string)
    requires NoBreak(key) && NoBreak(value)
    ensures var line := FieldLine(key, value);
      FieldShaped(line) && line == key + (":" + (" " + value)) && line[|key|] == ':'
      && line[..|key|] == key && line[|key| + 1..] == " " + value
  {
    assert FieldLine(key, value)[|key|] == ':';
  }

  lemma ColonIsNoSpace(line: string, at: nat)
    requires at < |line| && line[at] == ':'
    ensures Strip(line) != ""
  {
    var lead := Lead(line, 0);
    var trail := Trail(line, lead, |line|);
    assert lead <= at < trail;
  }

  lemma FieldLinesShaped(order: seq<string>, fields: Fields)
    requires WellFormed(fields) && forall key :: key in order ==> key in fields
    ensures forall i :: 0 <= i < |order| ==> FieldShaped(FieldLines(order, fields)[i])
  {
    forall i | 0 <= i < |order| ensures FieldShaped(FieldLines(order, fields)[i]) {
      assert CleanField(order[i], fields[order[i]]);
      FieldLineShape(order[i], fields[order[i]]);
    }
  }

  function Restrict(fields: Fields, order: seq<string>): Fields {
    map key | key in order && key in fields :: fields[key]
  }

  lemma RestrictSnoc(fields: Fields, order: seq<string>, key: string)
    requires key in fields
    ensures Restrict(fields, order + [key]) == Restrict(fields, order)[key := fields[key]]
  {
  }

  lemma {:induction false} FieldLinesParse(order: seq<string>, fields: Fields)
    requires WellFormed(fields) && forall key :: key in order ==> key in fields
    ensures FieldsOf(FieldLines(order, fields)) == Ok(Restrict(fields, order))
  {
    if order != [] {
      var init, last := order[..|order| - 1], order[|order| - 1];
      assert order == init + [last];
      FieldLinesParse(init, fields);
      FieldsSnoc(FieldLines(init, fields), last, fields[last]);
      RestrictSnoc(fields, init, last);
    }
  }

  lemma FieldsSnoc(lines: seq<string>, key: string, value: string)
    requires FieldsOf(lines).Ok? && CleanField(key, value)
    ensures FieldsOf(lines + [FieldLine(key, value)]) == Ok(FieldsOf(lines).value[key := value])
  {
    assert (lines + [FieldLine(key, value)])[..|lines|] == lines;
    FieldLineParses(FieldsOf(lines).value, key, value);
  }

  lemma FrontMatterReadsBack(lines: seq<string>, body: string)
    requires lines != [] && forall i :: 0 <= i < |lines| ==> FieldShaped(lines[i])
    requires FieldsOf(lines).Ok?
    ensures Parse(Written(lines, body)) == Ok(Document(FieldsOf(lines).value, body))
  {
    WrittenLayout(lines, body);
    CloseBehindLines(lines, CLOSE + body);
    SplitJoined(lines);
    ParseLayout(Join(lines), body);
  }

  lemma ParseLayout(front: string, body: string)
    requires FindClose(front + (CLOSE + body)) == Some(|front|) && FieldsOf(SplitLines(front)).Ok?
    ensures Parse(OPEN + (front + (CLOSE + body))) == Ok(Document(FieldsOf(SplitLines(front)).value, body))
  {
    var rest := front + (CLOSE + body);
    Slices(front, CLOSE, body);
    ParseFencedIs(rest, |front|, FieldsOf(SplitLines(front)).value);
    BehindPrefix(OPEN, rest);
  }

  lemma ParseFencedIs(rest: string, at: nat, fields: Fields)
    requires FindClose(rest) == Some(at) && FieldsOf(SplitLines(rest[..at])) == Ok(fields)
    ensures ParseFenced(rest) == Ok(Document(fields, rest[at + |CLOSE|..]))
  {
  }

  lemma Slices(front: string, close: string, body: string)
    ensures (front + (close + body))[..|front|] == front
    ensures (front + (close + body))[|front| + |close|..] == body
  {
  }

  lemma BehindPrefix(prefix: string, rest: string)
    ensures prefix <= prefix + rest && (prefix + rest)[|prefix|..] == rest
  {
  }

  lemma NothingReadsBack(rest: string, body: string)
    requires |rest| == |OPEN| + |body| && rest[0] == '-'
    ensures ParseFenced(rest) != Ok(Document(map[], body))
  {
    if ParseFenced(rest).Ok? {
      assert |ParseFenced(rest).value.body| < |body|;
    }
  }

  /** Without a field the fences touch, and what is parsed, if anything, has lost part of the body. */
  lemma EmptyDoesNotReadBack(body: string)
    ensures Parse(Written([], body)) != Ok(Document(map[], body))
  {
    var text := Written([], body);
    assert ["---"] + [] + ["---"] == ["---", "---"];
    assert Join(["---", "---"]) == "---" + "\n" + "---";
    assert text == "---\n---\n" + body;
    BehindPrefix(OPEN, "---\n" + body);
    assert text == OPEN + ("---\n" + body);
    NothingReadsBack("---\n" + body, body);
  }

  lemma InOrderReadsBack(document: Document, order: seq<string>)
    requires WellFormed(document.fields) && forall key :: key in order <==> key in document.fields
    ensures Parse(InOrder(document, order)) == Ok(document) <==> order != []
  {
    if order == [] {
      assert document.fields == map[];
      EmptyDoesNotReadBack(document.body);
    } else {
      FieldLinesShaped(order, document.fields);
      FieldLinesParse(order, document.fields);
      assert Restrict(document.fields, order) == document.fields;
      FrontMatterReadsBack(FieldLines(order, document.fields), document.body);
    }
  }

  /**
   * Serialising and parsing again gives the same fields and body, for every
   * document with clean fields, if and only if it has at least one field.
   */
  lemma RoundTripExact(document: Document, text: string)
    requires WellFormed(document.fields) && IsSerialization(document, text)
    ensures Parse(text) == Ok(document) <==> document.fields != map[]
  {
    var order :| IsKeyOrder(ORDERED_KEYS, document.fields.Keys, order) && text == InOrder(document, order);
    InOrderReadsBack(document, order);
    SameEmptiness(document.fields, order);
  }

  lemma SameEmptiness(fields: Fields, order: seq<string>)
    requires forall key :: key in order <==> key in fields
    ensures order == [] <==> fields == map[]
  {
    assert order != [] ==> order[0] in order;
  }

  lemma {:induction false} AscendingUnique(a: seq<string>, b: seq<string>)
    requires Ascending(a) && Ascending(b) && forall key :: key in a <==> key in b
    ensures a == b
  {
    assert a != [] ==> a[0] in b;
    assert b != [] ==> b[0] in a;
    if a != [] && b != [] {
      assert a[0] in b && b[0] in a;
      LessTotal(a[0], b[0]);
      assert a[0] == b[0];
      forall key ensures key in a[1..] <==> key in b[1..] {
        LessTotal(a[0], a[0]);
        assert key in a[1..] <==> key in a && key != a[0];
        assert key in b[1..] <==> key in b && key != b[0];
      }
      AscendingUnique(a[1..], b[1..]);
    }
  }

  /** The text written depends on nothing but the document. */
  lemma SerializationUnique(document: Document, one: string, two: string)
    requires IsSerialization(document, one) && IsSerialization(document, two)
    ensures one == two
  {
    var keys := document.fields.Keys;
    var a :| IsKeyOrder(ORDERED_KEYS, keys, a) && one == InOrder(document, a);
    var b :| IsKeyOrder(ORDERED_KEYS, keys, b) && two == InOrder(document, b);
    KeyOrderUnique(ORDERED_KEYS, keys, a, b);
  }

  lemma KeyOrderUnique(known: seq<string>, keys: set<string>, a: seq<string>, b: seq<string>)
    requires IsKeyOrder(known, keys, a) && IsKeyOrder(known, keys, b)
    ensures a == b
  {
    var first := Present(keys, known);
    var restA, restB := a[|first|..], b[|first|..];
    assert a == first + restA && b == first + restB;
    forall key ensures key in restA <==> key in restB {
      assert key in a <==> key in first || key in restA;
      assert key in b <==> key in first || key in restB;
    }
    AscendingUnique(restA, restB);
  }
}
