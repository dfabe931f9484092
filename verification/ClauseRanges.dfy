/** Amendment clauses: line ranges, and the sweep that refuses overlapping ones. */
module ClauseRanges {
  datatype Range = Range(start: int, end: int)

  datatype Place = Place(source: string, path: string)

  datatype Clause = Clause(place: Place, range: Range)

  /** A range that passed `_clause_bytes`, whatever the length of its file. */
  predicate Proper(range: Range) {
    1 <= range.start <= range.end
  }

  predicate Covers(range: Range, line: int) {
    range.start <= line <= range.end
  }

  ghost predicate ShareLine(a: Range, b: Range) {
    exists line :: Covers(a, line) && Covers(b, line)
  }

  predicate Before(a: Range, b: Range) {
    a.start < b.start || (a.start == b.start && a.end <= b.end)
  }

  function Insert(range: Range, sorted: seq<Range>): seq<Range> {
    if sorted == [] || Before(range, sorted[0]) then [range] + sorted else [sorted[0]] + Insert(range, sorted[1..])
  }

  /** Python's `sorted` on pairs. */
  function Sorted(ranges: seq<Range>): seq<Range> {
    if ranges == [] then [] else Insert(ranges[0], Sorted(ranges[1..]))
  }

  predicate Ordered(ranges: seq<Range>) {
    forall i, j :: 0 <= i < j < |ranges| ==> Before(ranges[i], ranges[j])
  }

  /** `range` shares a line with one of `ranges`. */
  ghost predicate Meets(range: Range, ranges: seq<Range>) {
    exists j :: 0 <= j < |ranges| && ShareLine(range, ranges[j])
  }

  /** Two different entries share a line. */
  ghost predicate Overlapping(ranges: seq<Range>) {
    exists i, j :: 0 <= i < j < |ranges| && ShareLine(ranges[i], ranges[j])
  }

  lemma OverlappingCons(range: Range, rest: seq<Range>)
    ensures Overlapping([range] + rest) <==> Meets(range, rest) || Overlapping(rest)
  {
    var all := [range] + rest;
    if i, j :| 0 <= i < j < |all| && ShareLine(all[i], all[j]) {
      if i == 0 { assert rest[j - 1] == all[j]; } else { assert rest[i - 1] == all[i] && rest[j - 1] == all[j]; }
    }
    if j :| 0 <= j < |rest| && ShareLine(range, rest[j]) {
      assert all[0] == range && all[j + 1] == rest[j];
    }
    if i, j :| 0 <= i < j < |rest| && ShareLine(rest[i], rest[j]) {
      assert all[i + 1] == rest[i] && all[j + 1] == rest[j];
    }
  }

  lemma MeetsCons(range: Range, first: Range, rest: seq<Range>)
    ensures Meets(range, [first] + rest) <==> ShareLine(range, first) || Meets(range, rest)
  {
    var all := [first] + rest;
    if j :| 0 <= j < |all| && ShareLine(range, all[j]) {
      if j > 0 { assert rest[j - 1] == all[j]; }
    }
    if j :| 0 <= j < |rest| && ShareLine(range, rest[j]) {
      assert all[j + 1] == rest[j];
    }
    if ShareLine(range, first) { assert all[0] == first; }
  }

  lemma ShareLineSymmetric(a: Range, b: Range)
    ensures ShareLine(a, b) <==> ShareLine(b, a)
  {
  }

  lemma {:induction false} InsertFacts(range: Range, sorted: seq<Range>, other: Range)
    requires Ordered(sorted)
    ensures Ordered(Insert(range, sorted))
    ensures forall r :: r in Insert(range, sorted) <==> r == range || r in sorted
    ensures Meets(other, Insert(range, sorted)) <==> ShareLine(other, range) || Meets(other, sorted)
    ensures Overlapping(Insert(range, sorted)) <==> Meets(range, sorted) || Overlapping(sorted)
  {
    if sorted == [] || Before(range, sorted[0]) {
      OverlappingCons(range, sorted);
      MeetsCons(other, range, sorted);
    } else {
      var first, rest := sorted[0], sorted[1..];
      assert sorted == [first] + rest;
      InsertFacts(range, rest, other);
      InsertFacts(range, rest, first);
      var inserted := Insert(range, rest);
      forall j | 0 <= j < |inserted| ensures Before(first, inserted[j]) {
        assert inserted[j] in inserted;
      }
      MeetsCons(other, first, inserted);
      MeetsCons(other, first, rest);
      MeetsCons(range, first, rest);
      OverlappingCons(first, inserted);
      OverlappingCons(first, rest);
      ShareLineSymmetric(first, range);
    }
  }

  /** Sorting keeps the ranges, puts them in order and neither hides nor makes an overlap. */
  lemma {:induction false} SortedFacts(ranges: seq<Range>)
    ensures Ordered(Sorted(ranges))
    ensures forall r :: r in Sorted(ranges) <==> r in ranges
    ensures forall other :: Meets(other, Sorted(ranges)) <==> Meets(other, ranges)
    ensures Overlapping(Sorted(ranges)) <==> Overlapping(ranges)
  {
    if ranges != [] {
      var first, rest := ranges[0], ranges[1..];
      assert ranges == [first] + rest;
      SortedFacts(rest);
      forall other ensures Meets(other, Sorted(ranges)) <==> Meets(other, ranges) {
        InsertFacts(first, Sorted(rest), other);
        MeetsCons(other, first, rest);
      }
      InsertFacts(first, Sorted(rest), first);
      OverlappingCons(first, rest);
    }
  }

  /** A range that starts behind all ends so far meets none of the ranges before it. */
  lemma BehindAll(sorted: seq<Range>, n: nat, maximumEnd: int)
    requires n < |sorted| && !Overlapping(sorted[..n]) && maximumEnd < sorted[n].start
    requires forall i :: 0 <= i < n ==> sorted[i].end <= maximumEnd
    ensures !Overlapping(sorted[..n + 1])
  {
    var before, after := sorted[..n], sorted[..n + 1];
    forall i, j | 0 <= i < j < |after| ensures !ShareLine(after[i], after[j]) {
      if j < n {
        assert after[i] == before[i] && after[j] == before[j];
      } else {
        assert after[i] == sorted[i] && after[j] == sorted[n];
      }
    }
  }

  /** One that starts no later than some end before it shares its first line with that range. */
  lemma WithinOne(sorted: seq<Range>, i: nat, n: nat)
    requires i < n < |sorted| && Ordered(sorted) && Proper(sorted[n]) && sorted[n].start <= sorted[i].end
    ensures Overlapping(sorted)
  {
    assert Before(sorted[i], sorted[n]);
    assert Covers(sorted[i], sorted[n].start) && Covers(sorted[n], sorted[n].start);
    assert ShareLine(sorted[i], sorted[n]);
  }

  /** The sweep over one group: sort, then compare every start with the greatest end so far. */
  method SweepGroup(ranges: seq<Range>) returns (overlap: bool)
    requires forall i :: 0 <= i < |ranges| ==> Proper(ranges[i])
    ensures overlap <==> Overlapping(ranges)
  {
    SortedFacts(ranges);
    var sorted := Sorted(ranges);
    var maximumEnd := 0;
    ghost var longest := 0;
    for n := 0 to |sorted|
      invariant !Overlapping(sorted[..n])
      invariant if n == 0 then maximumEnd == 0 else longest < n && sorted[longest].end == maximumEnd
      invariant forall i :: 0 <= i < n ==> sorted[i].end <= maximumEnd
    {
      var range := sorted[n];
      assert range in sorted && Proper(range);
      if range.start <= maximumEnd {
        WithinOne(sorted, longest, n);
        return true;
      }
      BehindAll(sorted, n, maximumEnd);
      if maximumEnd < range.end {
        maximumEnd, longest := range.end, n;
      }
    }
    assert sorted[..|sorted|] == sorted;
    return false;
  }

  /** The ranges of the clauses at `place`, in order. */
  function RangesAt(clauses: seq<Clause>, place: Place): seq<Range> {
    if clauses == [] then []
    else
      var init, last := clauses[..|clauses| - 1], clauses[|clauses| - 1];
      if last.place == place then RangesAt(init, place) + [last.range] else RangesAt(init, place)
  }

  /** Two different clauses of the same source and path share a line. */
  ghost predicate ClausesOverlap(clauses: seq<Clause>) {
    exists i, j ::
      0 <= i < j < |clauses| && clauses[i].place == clauses[j].place && ShareLine(clauses[i].range, clauses[j].range)
  }

  /** `range` shares a line with a clause at `place`. */
  ghost predicate MeetsAt(range: Range, clauses: seq<Clause>, place: Place) {
    exists i :: 0 <= i < |clauses| && clauses[i].place == place && ShareLine(range, clauses[i].range)
  }

  /** Two different clauses at `place` share a line. */
  ghost predicate OverlapAt(clauses: seq<Clause>, place: Place) {
    exists i, j ::
      0 <= i < j < |clauses| && clauses[i].place == clauses[j].place == place
      && ShareLine(clauses[i].range, clauses[j].range)
  }

  lemma MeetsSnoc(range: Range, ranges: seq<Range>, last: Range)
    ensures Meets(range, ranges + [last]) <==> Meets(range, ranges) || ShareLine(range, last)
  {
    var all := ranges + [last];
    if j :| 0 <= j < |ranges| && ShareLine(range, ranges[j]) { assert all[j] == ranges[j]; }
    if ShareLine(range, last) { assert all[|ranges|] == last; }
  }

  lemma OverlappingSnoc(ranges: seq<Range>, last: Range)
    ensures Overlapping(ranges + [last]) <==> Overlapping(ranges) || Meets(last, ranges)
  {
    var all := ranges + [last];
    if i, j :| 0 <= i < j < |all| && ShareLine(all[i], all[j]) {
      ShareLineSymmetric(all[i], all[j]);
      assert all[i] == ranges[i];
    }
    if i, j :| 0 <= i < j < |ranges| && ShareLine(ranges[i], ranges[j]) {
      assert all[i] == ranges[i] && all[j] == ranges[j];
    }
    if j :| 0 <= j < |ranges| && ShareLine(last, ranges[j]) {
      ShareLineSymmetric(last, ranges[j]);
      assert all[j] == ranges[j] && all[|ranges|] == last;
    }
  }

  lemma OverlapAtSnoc(clauses: seq<Clause>, last: Clause, place: Place)
    ensures OverlapAt(clauses + [last], place) <==>
      OverlapAt(clauses, place) || (last.place == place && MeetsAt(last.range, clauses, place))
  {
    var all := clauses + [last];
    if i, j :| 0 <= i < j < |all| && all[i].place == all[j].place == place && ShareLine(all[i].range, all[j].range) {
      ShareLineSymmetric(all[i].range, all[j].range);
      assert all[i] == clauses[i];
    }
    if i, j :|
      0 <= i < j < |clauses| && clauses[i].place == clauses[j].place == place
      && ShareLine(clauses[i].range, clauses[j].range) {
      assert all[i] == clauses[i] && all[j] == clauses[j];
    }
    if last.place == place && MeetsAt(last.range, clauses, place) {
      var j :| 0 <= j < |clauses| && clauses[j].place == place && ShareLine(last.range, clauses[j].range);
      ShareLineSymmetric(last.range, clauses[j].range);
      assert all[j] == clauses[j] && all[|clauses|] == last;
    }
  }

  lemma {:induction false} GroupMeets(clauses: seq<Clause>, place: Place, range: Range)
    ensures Meets(range, RangesAt(clauses, place)) <==> MeetsAt(range, clauses, place)
  {
    if clauses != [] {
      var init, last := clauses[..|clauses| - 1], clauses[|clauses| - 1];
      assert clauses == init + [last];
      GroupMeets(init, place, range);
      MeetsSnoc(range, RangesAt(init, place), last.range);
      if i :| 0 <= i < |init| && init[i].place == place && ShareLine(range, init[i].range) {
        assert clauses[i] == init[i];
      }
    }
  }

  /** A group overlaps exactly when two of its clauses do. */
  lemma {:induction false} GroupsCover(clauses: seq<Clause>, place: Place)
    ensures Overlapping(RangesAt(clauses, place)) <==> OverlapAt(clauses, place)
  {
    if clauses != [] {
      var init, last := clauses[..|clauses| - 1], clauses[|clauses| - 1];
      assert clauses == init + [last];
      GroupsCover(init, place);
      GroupMeets(init, place, last.range);
      OverlappingSnoc(RangesAt(init, place), last.range);
      OverlapAtSnoc(init, last, place);
    }
  }

  lemma {:induction false} GroupIsProper(clauses: seq<Clause>, place: Place)
    requires forall i :: 0 <= i < |clauses| ==> Proper(clauses[i].range)
    ensures forall k :: 0 <= k < |RangesAt(clauses, place)| ==> Proper(RangesAt(clauses, place)[k])
  {
    if clauses != [] {
      GroupIsProper(clauses[..|clauses| - 1], place);
    }
  }

  lemma RangesAtNext(clauses: seq<Clause>, n: nat, place: Place)
    requires n < |clauses|
    ensures RangesAt(clauses[..n + 1], place) ==
      var before := RangesAt(clauses[..n], place);
      if clauses[n].place == place then before + [clauses[n].range] else before
  {
    assert clauses[..n + 1][..n] == clauses[..n];
  }

  /** Collect the ranges of every source and path. */
  method GroupClauses(clauses: seq<Clause>) returns (groups: map<Place, seq<Range>>)
    ensures forall i :: 0 <= i < |clauses| ==> clauses[i].place in groups
    ensures forall place :: place in groups ==> groups[place] == RangesAt(clauses, place)
  {
    groups := map[];
    for n := 0 to |clauses|
      invariant forall i :: 0 <= i < n ==> clauses[i].place in groups
      invariant forall place :: Entry(groups, place) == RangesAt(clauses[..n], place)
    {
      var clause := clauses[n];
      ghost var before := groups;
      groups := groups[clause.place := Entry(groups, clause.place) + [clause.range]];
      forall place ensures Entry(groups, place) == RangesAt(clauses[..n + 1], place) {
        RangesAtNext(clauses, n, place);
        assert Entry(before, place) == RangesAt(clauses[..n], place);
      }
    }
    assert clauses[..|clauses|] == clauses;
    assert forall place :: place in groups ==> Entry(groups, place) == RangesAt(clauses, place);
  }

  function Entry(groups: map<Place, seq<Range>>, place: Place): seq<Range> {
    if place in groups then groups[place] else []
  }

  /** Group the clauses, then sweep each group: an overlap is reported exactly when two clauses of the same source and
      path share a line. */
  method SweepClauses(clauses: seq<Clause>) returns (overlap: bool)
    requires forall i :: 0 <= i < |clauses| ==> Proper(clauses[i].range)
    ensures overlap <==> ClausesOverlap(clauses)
  {
    var groups := GroupClauses(clauses);
    var places := groups.Keys;
    while places != {}
      invariant places <= groups.Keys
      invariant forall place :: place in groups && place !in places ==> !Overlapping(RangesAt(clauses, place))
      decreases places
    {
      var place :| place in places;
      GroupIsProper(clauses, place);
      GroupsCover(clauses, place);
      var found := SweepGroup(groups[place]);
      if found {
        return true;
      }
      places := places - {place};
    }
    NoGroupNoOverlap(clauses, groups.Keys);
    return false;
  }

  lemma NoGroupNoOverlap(clauses: seq<Clause>, places: set<Place>)
    requires forall i :: 0 <= i < |clauses| ==> clauses[i].place in places
    requires forall place :: place in places ==> !Overlapping(RangesAt(clauses, place))
    ensures !ClausesOverlap(clauses)
  {
    if i, j :|
      0 <= i < j < |clauses| && clauses[i].place == clauses[j].place
      && ShareLine(clauses[i].range, clauses[j].range) {
      GroupsCover(clauses, clauses[i].place);
    }
  }
}
