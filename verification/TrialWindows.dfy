/** Campaign rows split into trial windows, each from a `case_start` to its terminal. */
module TrialWindows {
  import opened Common

  datatype RecordType = CaseStart | CaseComplete | CaseError | OtherRecord

  /** A row: its case id if that is a string, its ordinal if that is an integer and no boolean. */
  datatype Row = Row(kind: RecordType, caseId: Option<string>, ordinal: Option<int>, index: nat)

  datatype Code = Overlap | IdInvalid | OrdinalInvalid | TerminalMismatch | Unterminated

  datatype Issue = Issue(code: Code, caseId: Option<string>)

  datatype Window = Window(caseId: string, ordinal: int, rows: seq<Row>)

  const INVALID_CASE_ID: string := "<invalid-case-id>"

  predicate Starts(row: Row) {
    row.kind == CaseStart
  }

  predicate Terminal(row: Row) {
    row.kind == CaseComplete || row.kind == CaseError
  }

  predicate ValidId(row: Row) {
    row.caseId.Some? && row.caseId.value != ""
  }

  predicate ValidOrdinal(row: Row) {
    row.ordinal.Some? && row.ordinal.value > 0
  }

  function CaseOf(row: Row): string {
    if ValidId(row) then row.caseId.value else INVALID_CASE_ID
  }

  /** The ordinal of the window opened by `row` when `earlier` windows came before it. */
  function OrdinalOf(row: Row, earlier: nat): int {
    if ValidOrdinal(row) then row.ordinal.value else -(earlier + 1)
  }

  // ---- What a split is ----------------------------------------------------

  /** Where a window open at `i` ends: before the next start, behind the next terminal, or at the end. */
  function End(rows: seq<Row>, i: nat): (e: nat)
    requires i <= |rows|
    ensures i <= e <= |rows|
    decreases |rows| - i
  {
    if i == |rows| || Starts(rows[i]) then i
    else if Terminal(rows[i]) then i + 1
    else End(rows, i + 1)
  }

  /** The slices from each start on, left to right. */
  function Spans(rows: seq<Row>, i: nat): (spans: seq<(nat, nat)>)
    requires i <= |rows|
    decreases |rows| - i
  {
    if i == |rows| then []
    else if Starts(rows[i]) then [(i, End(rows, i + 1))] + Spans(rows, End(rows, i + 1))
    else Spans(rows, i + 1)
  }

  predicate Within(rows: seq<Row>, span: (nat, nat)) {
    span.0 < span.1 <= |rows|
  }

  function WindowAt(rows: seq<Row>, span: (nat, nat), earlier: nat): Window
    requires Within(rows, span)
  {
    Window(CaseOf(rows[span.0]), OrdinalOf(rows[span.0], earlier), rows[span.0..span.1])
  }

  function StartIssues(row: Row): seq<Issue> {
    (if ValidId(row) then [] else [Issue(IdInvalid, None)]) +
    (if ValidOrdinal(row) then [] else [Issue(OrdinalInvalid, Some(CaseOf(row)))])
  }

  function EndIssues(rows: seq<Row>, span: (nat, nat)): seq<Issue>
    requires Within(rows, span)
  {
    var active, last := CaseOf(rows[span.0]), rows[span.1 - 1];
    if Terminal(last) then (if last.caseId == Some(active) then [] else [Issue(TerminalMismatch, Some(active))])
    else if span.1 < |rows| then [Issue(Overlap, Some(active))]
    else [Issue(Unterminated, Some(active))]
  }

  predicate AllWithin(rows: seq<Row>, spans: seq<(nat, nat)>) {
    forall k :: 0 <= k < |spans| ==> Within(rows, spans[k])
  }

  function Windows(rows: seq<Row>, spans: seq<(nat, nat)>): (windows: seq<Window>)
    requires AllWithin(rows, spans)
    ensures |windows| == |spans|
    ensures forall k :: 0 <= k < |spans| ==> windows[k] == WindowAt(rows, spans[k], k)
  {
    if spans == [] then []
    else Windows(rows, spans[..|spans| - 1]) + [WindowAt(rows, spans[|spans| - 1], |spans| - 1)]
  }

  function Issues(rows: seq<Row>, spans: seq<(nat, nat)>): seq<Issue>
    requires AllWithin(rows, spans)
  {
    if spans == [] then []
    else
      var span := spans[|spans| - 1];
      Issues(rows, spans[..|spans| - 1]) + (StartIssues(rows[span.0]) + EndIssues(rows, span))
  }

  lemma SpansSnoc(rows: seq<Row>, spans: seq<(nat, nat)>, span: (nat, nat))
    requires AllWithin(rows, spans) && Within(rows, span)
    ensures AllWithin(rows, spans + [span])
    ensures Issues(rows, spans + [span]) == Issues(rows, spans) + (StartIssues(rows[span.0]) + EndIssues(rows, span))
    ensures Windows(rows, spans + [span]) == Windows(rows, spans) + [WindowAt(rows, span, |spans|)]
  {
    assert (spans + [span])[..|spans|] == spans;
  }

  // ---- The loop -----------------------------------------------------------

  /** No window is open at `i`. */
  ghost predicate Idle(rows: seq<Row>, closed: seq<(nat, nat)>, i: nat) {
    AllWithin(rows, closed) && i <= |rows| && Spans(rows, 0) == closed + Spans(rows, i)
  }

  /** A window is open from `start`, and nothing before `i` ends it. */
  ghost predicate Open(rows: seq<Row>, closed: seq<(nat, nat)>, start: nat, i: nat) {
    AllWithin(rows, closed) && start < i <= |rows| && Starts(rows[start]) && !Terminal(rows[i - 1])
    && Spans(rows, 0) == closed + Spans(rows, start) && End(rows, start + 1) == End(rows, i)
  }

  lemma IdleGoesOn(rows: seq<Row>, closed: seq<(nat, nat)>, i: nat)
    requires Idle(rows, closed, i) && i < |rows|
    ensures if Starts(rows[i]) then Open(rows, closed, i, i + 1) else Idle(rows, closed, i + 1)
  {
  }

  lemma OpenGoesOn(rows: seq<Row>, closed: seq<(nat, nat)>, start: nat, i: nat)
    requires Open(rows, closed, start, i) && i < |rows| && !Starts(rows[i])
    ensures if Terminal(rows[i]) then End(rows, i) == i + 1 else Open(rows, closed, start, i + 1)
  {
  }

  lemma OpenCloses(rows: seq<Row>, closed: seq<(nat, nat)>, start: nat, i: nat, e: nat)
    requires Open(rows, closed, start, i) && End(rows, i) == e
    ensures Idle(rows, closed + [(start, e)], e)
  {
    SpansStep(rows, start);
    assert closed + ([(start, e)] + Spans(rows, e)) == (closed + [(start, e)]) + Spans(rows, e);
  }

  lemma Regroup(a: seq<Issue>, b: seq<Issue>, c: seq<Issue>)
    ensures a + (b + c) == a + b + c
  {
  }

  /** The case, the ordinal and the issues of a `case_start` row. */
  method OpenCase(row: Row, earlier: nat) returns (caseId: string, ordinal: int, issues: seq<Issue>)
    ensures caseId == CaseOf(row) && ordinal == OrdinalOf(row, earlier) && issues == StartIssues(row)
  {
    issues := [];
    if ValidId(row) {
      caseId := row.caseId.value;
    } else {
      issues := issues + [Issue(IdInvalid, None)];
      caseId := INVALID_CASE_ID;
    }
    if ValidOrdinal(row) {
      ordinal := row.ordinal.value;
    } else {
      issues := issues + [Issue(OrdinalInvalid, Some(caseId))];
      ordinal := -(earlier + 1);
    }
  }

  /** What the loop has gathered before row `i`; `start` is where the open window began. */
  ghost predicate Tracks(rows: seq<Row>, i: nat, windows: seq<Window>, issues: seq<Issue>, active: Option<Window>,
                         closed: seq<(nat, nat)>, start: nat) {
    AllWithin(rows, closed) && windows == Windows(rows, closed)
    && (active.None? ==> Idle(rows, closed, i) && issues == Issues(rows, closed))
    && (active.Some? ==> Open(rows, closed, start, i))
    && (active.Some? ==> issues == Issues(rows, closed) + StartIssues(rows[start]))
    && (active.Some? ==> active.value == WindowAt(rows, (start, i), |closed|))
  }

  lemma TracksOpening(rows: seq<Row>, i: nat, windows: seq<Window>, issues: seq<Issue>, closed: seq<(nat, nat)>, s: nat)
    requires Tracks(rows, i, windows, issues, None, closed, s) && i < |rows| && Starts(rows[i])
    ensures Tracks(rows, i + 1, windows, issues + StartIssues(rows[i]),
                   Some(Window(CaseOf(rows[i]), OrdinalOf(rows[i], |windows|), [rows[i]])), closed, i)
  {
    IdleGoesOn(rows, closed, i);
    assert rows[i..i + 1] == [rows[i]];
  }

  lemma TracksRow(rows: seq<Row>, i: nat, windows: seq<Window>, issues: seq<Issue>, active: Window,
                  closed: seq<(nat, nat)>, start: nat)
    requires Tracks(rows, i, windows, issues, Some(active), closed, start)
    requires i < |rows| && !Starts(rows[i])
    ensures active.(rows := active.rows + [rows[i]]) == WindowAt(rows, (start, i + 1), |closed|)
    ensures if Terminal(rows[i]) then End(rows, i) == i + 1
      else Tracks(rows, i + 1, windows, issues, Some(active.(rows := active.rows + [rows[i]])), closed, start)
  {
    WindowGrows(rows, start, i, |closed|);
    OpenGoesOn(rows, closed, start, i);
  }

  lemma WindowGrows(rows: seq<Row>, start: nat, i: nat, earlier: nat)
    requires start < i < |rows|
    ensures var window := WindowAt(rows, (start, i), earlier);
      WindowAt(rows, (start, i + 1), earlier) == window.(rows := window.rows + [rows[i]])
  {
    assert rows[start..i + 1] == rows[start..i] + [rows[i]];
  }

  lemma TracksClosing(rows: seq<Row>, i: nat, windows: seq<Window>, issues: seq<Issue>, active: Window,
                      closed: seq<(nat, nat)>, start: nat, e: nat, whole: Window)
    requires Tracks(rows, i, windows, issues, Some(active), closed, start)
    requires End(rows, i) == e && whole == WindowAt(rows, (start, e), |closed|)
    ensures Tracks(rows, e, windows + [whole], issues + EndIssues(rows, (start, e)), None, closed + [(start, e)], start)
  {
    OpenCloses(rows, closed, start, i, e);
    SpansSnoc(rows, closed, (start, e));
    Regroup(Issues(rows, closed), StartIssues(rows[start]), EndIssues(rows, (start, e)));
  }

  /** Which issue closing the open window raises. */
  lemma ClosingIssues(rows: seq<Row>, i: nat, windows: seq<Window>, issues: seq<Issue>, active: Window,
                      closed: seq<(nat, nat)>, start: nat)
    requires Tracks(rows, i, windows, issues, Some(active), closed, start)
    ensures i == |rows| ==> EndIssues(rows, (start, i)) == [Issue(Unterminated, Some(active.caseId))]
    ensures i < |rows| && Starts(rows[i]) ==> EndIssues(rows, (start, i)) == [Issue(Overlap, Some(active.caseId))]
    ensures i < |rows| && Terminal(rows[i]) ==>
      issues + EndIssues(rows, (start, i + 1)) ==
        if rows[i].caseId == Some(active.caseId) then issues
        else issues + [Issue(TerminalMismatch, Some(active.caseId))]
  {
  }

  lemma ClosedByStart(rows: seq<Row>, i: nat, windows: seq<Window>, issues: seq<Issue>, active: Window,
                      closed: seq<(nat, nat)>, start: nat)
    requires Tracks(rows, i, windows, issues, Some(active), closed, start) && i < |rows| && Starts(rows[i])
    ensures Tracks(rows, i, windows + [active], issues + [Issue(Overlap, Some(active.caseId))], None,
                   closed + [(start, i)], start)
  {
    ClosingIssues(rows, i, windows, issues, active, closed, start);
    TracksClosing(rows, i, windows, issues, active, closed, start, i, active);
  }

  lemma ClosedByTerminal(rows: seq<Row>, i: nat, windows: seq<Window>, issues: seq<Issue>, active: Window,
                         closed: seq<(nat, nat)>, start: nat)
    requires Tracks(rows, i, windows, issues, Some(active), closed, start) && i < |rows| && Terminal(rows[i])
    ensures Tracks(rows, i + 1, windows + [active.(rows := active.rows + [rows[i]])],
                   if rows[i].caseId == Some(active.caseId) then issues
                   else issues + [Issue(TerminalMismatch, Some(active.caseId))],
                   None, closed + [(start, i + 1)], start)
  {
    TracksRow(rows, i, windows, issues, active, closed, start);
    ClosingIssues(rows, i, windows, issues, active, closed, start);
    TracksClosing(rows, i, windows, issues, active, closed, start, i + 1, active.(rows := active.rows + [rows[i]]));
  }

  lemma ClosedAtEnd(rows: seq<Row>, windows: seq<Window>, issues: seq<Issue>, active: Window,
                    closed: seq<(nat, nat)>, start: nat)
    requires Tracks(rows, |rows|, windows, issues, Some(active), closed, start)
    ensures Tracks(rows, |rows|, windows + [active], issues + [Issue(Unterminated, Some(active.caseId))], None,
                   closed + [(start, |rows|)], start)
  {
    ClosingIssues(rows, |rows|, windows, issues, active, closed, start);
    TracksClosing(rows, |rows|, windows, issues, active, closed, start, |rows|, active);
  }

  /** A `case_start` row: an open window is closed as overlapped, and a new one opened. */
  method TakeStart(rows: seq<Row>, i: nat, windows: seq<Window>, issues: seq<Issue>, active: Option<Window>,
                   ghost closed: seq<(nat, nat)>, ghost start: nat)
    returns (windows': seq<Window>, issues': seq<Issue>, active': Option<Window>, ghost closed': seq<(nat, nat)>)
    requires Tracks(rows, i, windows, issues, active, closed, start) && i < |rows| && Starts(rows[i])
    ensures Tracks(rows, i + 1, windows', issues', active', closed', i)
  {
    windows', issues', closed' := windows, issues, closed;
    if active.Some? {
      ClosedByStart(rows, i, windows, issues, active.value, closed, start);
      issues' := issues' + [Issue(Overlap, Some(active.value.caseId))];
      windows' := windows' + [active.value];
      closed' := closed' + [(start, i)];
    }
    TracksOpening(rows, i, windows', issues', closed', start);
    var caseId, ordinal, found := OpenCase(rows[i], |windows'|);
    issues', active' := issues' + found, Some(Window(caseId, ordinal, [rows[i]]));
  }

  /** A row inside an open window: it is added, and a terminal closes the window. */
  method TakeRow(rows: seq<Row>, i: nat, windows: seq<Window>, issues: seq<Issue>, active: Window,
                 ghost closed: seq<(nat, nat)>, ghost start: nat)
    returns (windows': seq<Window>, issues': seq<Issue>, active': Option<Window>, ghost closed': seq<(nat, nat)>)
    requires Tracks(rows, i, windows, issues, Some(active), closed, start) && i < |rows| && !Starts(rows[i])
    ensures Tracks(rows, i + 1, windows', issues', active', closed', start)
  {
    var row := rows[i];
    var grown := active.(rows := active.rows + [row]);
    if !Terminal(row) {
      TracksRow(rows, i, windows, issues, active, closed, start);
      return windows, issues, Some(grown), closed;
    }
    ClosedByTerminal(rows, i, windows, issues, active, closed, start);
    issues' := issues;
    if row.caseId != Some(grown.caseId) {
      issues' := issues' + [Issue(TerminalMismatch, Some(grown.caseId))];
    }
    windows', active', closed' := windows + [grown], None, closed + [(start, i + 1)];
  }

  lemma TracksIdle(rows: seq<Row>, i: nat, windows: seq<Window>, issues: seq<Issue>, closed: seq<(nat, nat)>, s: nat)
    requires Tracks(rows, i, windows, issues, None, closed, s) && i < |rows| && !Starts(rows[i])
    ensures Tracks(rows, i + 1, windows, issues, None, closed, s)
  {
    IdleGoesOn(rows, closed, i);
  }

  lemma TracksAll(rows: seq<Row>, windows: seq<Window>, issues: seq<Issue>, closed: seq<(nat, nat)>, s: nat)
    requires Tracks(rows, |rows|, windows, issues, None, closed, s)
    ensures AllWithin(rows, Spans(rows, 0))
    ensures windows == Windows(rows, Spans(rows, 0)) && issues == Issues(rows, Spans(rows, 0))
  {
    assert closed + Spans(rows, |rows|) == closed;
  }

  /** `split_trial_windows`. */
  method SplitTrialWindows(rows: seq<Row>) returns (windows: seq<Window>, issues: seq<Issue>)
    ensures AllWithin(rows, Spans(rows, 0))
    ensures windows == Windows(rows, Spans(rows, 0))
    ensures issues == Issues(rows, Spans(rows, 0))
  {
    windows, issues := [], [];
    var active: Option<Window> := None;
    ghost var closed: seq<(nat, nat)> := [];
    ghost var start := 0;
    for i := 0 to |rows|
      invariant Tracks(rows, i, windows, issues, active, closed, start)
    {
      if Starts(rows[i]) {
        windows, issues, active, closed := TakeStart(rows, i, windows, issues, active, closed, start);
        start := i;
      } else if active.None? {
        TracksIdle(rows, i, windows, issues, closed, start);
      } else {
        windows, issues, active, closed := TakeRow(rows, i, windows, issues, active.value, closed, start);
      }
    }
    windows, issues := TakeEnd(rows, windows, issues, active, closed, start);
  }

  /** The end of the rows: a window still open is closed as unterminated. */
  method TakeEnd(rows: seq<Row>, windows: seq<Window>, issues: seq<Issue>, active: Option<Window>,
                 ghost closed: seq<(nat, nat)>, ghost start: nat)
    returns (windows': seq<Window>, issues': seq<Issue>)
    requires Tracks(rows, |rows|, windows, issues, active, closed, start)
    ensures AllWithin(rows, Spans(rows, 0))
    ensures windows' == Windows(rows, Spans(rows, 0)) && issues' == Issues(rows, Spans(rows, 0))
  {
    if active.None? {
      TracksAll(rows, windows, issues, closed, start);
      return windows, issues;
    }
    ClosedAtEnd(rows, windows, issues, active.value, closed, start);
    issues' := issues + [Issue(Unterminated, Some(active.value.caseId))];
    windows' := windows + [active.value];
    TracksAll(rows, windows', issues', closed + [(start, |rows|)], start);
  }

  // ---- What the windows are -----------------------------------------------

  /** A slice that begins with its only start and holds a terminal, if any, as its last row. */
  predicate WellCut(rows: seq<Row>, span: (nat, nat)) {
    Within(rows, span) && Starts(rows[span.0])
    && (forall k :: span.0 < k < span.1 ==> !Starts(rows[k]))
    && (forall k :: span.0 <= k < span.1 - 1 ==> !Terminal(rows[k]))
  }

  /** It is cut nowhere earlier than it must be: only a terminal, another start or the end closes it. */
  predicate Maximal(rows: seq<Row>, span: (nat, nat)) {
    Within(rows, span) && (span.1 == |rows| || Starts(rows[span.1]) || Terminal(rows[span.1 - 1]))
  }

  lemma {:induction false} EndCuts(rows: seq<Row>, i: nat)
    requires i <= |rows|
    ensures var e := End(rows, i);
      (forall k :: i <= k < e ==> !Starts(rows[k])) && (forall k :: i <= k < e - 1 ==> !Terminal(rows[k]))
      && (e == |rows| || Starts(rows[e]) || (i < e && Terminal(rows[e - 1])))
    decreases |rows| - i
  {
    if i < |rows| && !Starts(rows[i]) && !Terminal(rows[i]) {
      EndCuts(rows, i + 1);
    }
  }

  predicate InOrder(spans: seq<(nat, nat)>, i: nat) {
    (forall k :: 0 <= k < |spans| ==> i <= spans[k].0)
    && forall j, k :: 0 <= j < k < |spans| ==> spans[j].1 <= spans[k].0
  }

  lemma SpansStep(rows: seq<Row>, i: nat)
    requires i < |rows|
    ensures Starts(rows[i]) ==> Spans(rows, i) == [(i, End(rows, i + 1))] + Spans(rows, End(rows, i + 1))
    ensures !Starts(rows[i]) ==> Spans(rows, i) == Spans(rows, i + 1)
  {
  }

  /** The windows are disjoint and in order, each well cut and no shorter than it must be. */
  lemma {:induction false} SpansAreWellCut(rows: seq<Row>, i: nat)
    requires i <= |rows|
    ensures InOrder(Spans(rows, i), i)
    ensures forall k :: 0 <= k < |Spans(rows, i)| ==>
      WellCut(rows, Spans(rows, i)[k]) && Maximal(rows, Spans(rows, i)[k])
    decreases |rows| - i
  {
    if i < |rows| {
      SpansStep(rows, i);
      if Starts(rows[i]) {
        var e := End(rows, i + 1);
        EndCuts(rows, i + 1);
        SpansAreWellCut(rows, e);
        CutCons(rows, (i, e), Spans(rows, e));
      } else {
        SpansAreWellCut(rows, i + 1);
      }
    }
  }

  lemma CutCons(rows: seq<Row>, span: (nat, nat), rest: seq<(nat, nat)>)
    requires WellCut(rows, span) && Maximal(rows, span) && InOrder(rest, span.1)
    requires forall k :: 0 <= k < |rest| ==> WellCut(rows, rest[k]) && Maximal(rows, rest[k])
    ensures InOrder([span] + rest, span.0)
    ensures forall k :: 0 <= k < |[span] + rest| ==>
      WellCut(rows, ([span] + rest)[k]) && Maximal(rows, ([span] + rest)[k])
  {
  }

  /** Every start opens a window of its own. */
  lemma {:induction false} EveryStartOpens(rows: seq<Row>, i: nat, s: nat) returns (k: nat)
    requires i <= s < |rows| && Starts(rows[s])
    ensures k < |Spans(rows, i)| && Spans(rows, i)[k].0 == s
    decreases |rows| - i
  {
    SpansStep(rows, i);
    if i == s {
      k := 0;
    } else if Starts(rows[i]) {
      EndCuts(rows, i + 1);
      k := EveryStartOpens(rows, End(rows, i + 1), s);
      k := k + 1;
    } else {
      k := EveryStartOpens(rows, i + 1, s);
    }
  }

  /** A window that raises no issue: named, numbered, and ended by a terminal of its own case. */
  predicate Sound(window: Window) {
    |window.rows| >= 2 && window.ordinal > 0 && window.caseId != ""
    && window.rows[0].caseId == Some(window.caseId)
    && Terminal(window.rows[|window.rows| - 1])
    && window.rows[|window.rows| - 1].caseId == Some(window.caseId)
  }

  lemma SoundExactly(rows: seq<Row>, span: (nat, nat), earlier: nat)
    requires WellCut(rows, span)
    ensures Sound(WindowAt(rows, span, earlier)) <==> StartIssues(rows[span.0]) + EndIssues(rows, span) == []
  {
  }

  lemma {:induction false} IssuesExactly(rows: seq<Row>, spans: seq<(nat, nat)>)
    requires AllWithin(rows, spans) && forall k :: 0 <= k < |spans| ==> WellCut(rows, spans[k])
    ensures Issues(rows, spans) == [] <==> forall k :: 0 <= k < |spans| ==> Sound(Windows(rows, spans)[k])
  {
    if spans != [] {
      var init, last := spans[..|spans| - 1], |spans| - 1;
      IssuesExactly(rows, init);
      SoundExactly(rows, spans[last], last);
      assert Windows(rows, spans) == Windows(rows, init) + [WindowAt(rows, spans[last], last)];
    }
  }

  /** No issue is raised if and only if every window is sound. */
  lemma NoIssueExactly(rows: seq<Row>)
    ensures AllWithin(rows, Spans(rows, 0))
    ensures Issues(rows, Spans(rows, 0)) == [] <==>
      forall k :: 0 <= k < |Spans(rows, 0)| ==> Sound(Windows(rows, Spans(rows, 0))[k])
  {
    SpansAreWellCut(rows, 0);
    IssuesExactly(rows, Spans(rows, 0));
  }

  /** A window is named and numbered by its first row; what that does not tell is made up. */
  lemma WindowNamed(rows: seq<Row>, k: nat)
    requires AllWithin(rows, Spans(rows, 0)) && k < |Spans(rows, 0)|
    ensures var window, first := Windows(rows, Spans(rows, 0))[k], rows[Spans(rows, 0)[k].0];
      && window.rows == rows[Spans(rows, 0)[k].0..Spans(rows, 0)[k].1]
      && window.caseId == (if first.caseId.None? || first.caseId == Some("") then "<invalid-case-id>"
                           else first.caseId.value)
      && window.ordinal == (if first.ordinal.None? || first.ordinal.value <= 0 then -(k + 1) else first.ordinal.value)
  {
  }

  /** What is wrong with the window of a span, by the code of the issue. */
  predicate Faulty(rows: seq<Row>, span: (nat, nat), caseId: string, issue: Issue)
    requires Within(rows, span)
  {
    var first, last := rows[span.0], rows[span.1 - 1];
    match issue.code
    case IdInvalid => issue.caseId == None && (first.caseId.None? || first.caseId == Some(""))
    case OrdinalInvalid => issue.caseId == Some(caseId) && (first.ordinal.None? || first.ordinal.value <= 0)
    case TerminalMismatch =>
      issue.caseId == Some(caseId) && last.kind in {CaseComplete, CaseError} && last.caseId != Some(caseId)
    case Overlap => issue.caseId == Some(caseId) && last.kind !in {CaseComplete, CaseError} && span.1 < |rows|
    case Unterminated => issue.caseId == Some(caseId) && last.kind !in {CaseComplete, CaseError} && span.1 == |rows|
  }

  /** Exactly the issues that say what is wrong are raised for a window. */
  lemma FaultyExactly(rows: seq<Row>, span: (nat, nat), earlier: nat, issue: Issue)
    requires WellCut(rows, span)
    ensures issue in StartIssues(rows[span.0]) + EndIssues(rows, span) <==>
      Faulty(rows, span, WindowAt(rows, span, earlier).caseId, issue)
  {
  }

  /** An ordinal the splitter made up names the place of its window, and so no two windows share one. */
  lemma MadeUpOrdinals(rows: seq<Row>, j: nat, k: nat)
    requires AllWithin(rows, Spans(rows, 0)) && j < |Spans(rows, 0)| && k < |Spans(rows, 0)|
    ensures var windows := Windows(rows, Spans(rows, 0));
      (windows[k].ordinal < 0 <==> !ValidOrdinal(windows[k].rows[0]))
      && (windows[j].ordinal == windows[k].ordinal < 0 ==> j == k)
  {
  }
}
