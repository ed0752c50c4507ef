/**
 * The execute step: every sheet of the workbook is matched against every
 * assignment; a match records a per-course result (a later match for the
 * same course overwrites an earlier one) and contributes one execution pair
 * per tracking ID of the sheet.
 */
module Resolver {
  import opened Wrappers
  import opened Sheets
  import opened Slots

  /** What a course resolved to: its driver, the driver's transporter ID and the sheet's tracking IDs. */
  datatype ResultRecord = ResultRecord(course: string, driver: string, transportId: string, trackingIds: seq<string>)

  /** One tracking ID handed to one driver. */
  datatype ExecutionPair = ExecutionPair(trackingId: string, driverName: string, transportId: string)

  datatype Resolved = Resolved(resultsByCourse: map<string, ResultRecord>, executionPairs: seq<ExecutionPair>)

  /** A sheet as the execute step sees it: its course code and its tracking IDs. */
  datatype Extraction = Extraction(code: string, ids: seq<string>)

  /** Every sheet has a column B, so every extraction succeeds. */
  predicate Readable(sheets: seq<Sheet>) {
    forall i :: 0 <= i < |sheets| ==> HasColumn(sheets[i].rows, TrackingColumn)
  }

  /** The course code and tracking IDs of every sheet, in workbook order. */
  function ExtractAll(sheets: seq<Sheet>): (es: seq<Extraction>)
    requires Readable(sheets)
    ensures |es| == |sheets|
    decreases |sheets|
  {
    if sheets == [] then []
    else
      var last := sheets[|sheets| - 1];
      ExtractAll(sheets[..|sheets| - 1]) +
        [Extraction(CourseFromSheetName(last.name), ExtractTrackingIds(last.rows).value)]
  }

  /** Sheet `i` and assignment `j` are a match: the assignment's course is the sheet's course code. */
  predicate Matches(es: seq<Extraction>, assignments: seq<Assignment>, i: int, j: int) {
    0 <= i < |es| && 0 <= j < |assignments| && assignments[j].course == es[i].code
  }

  /** The pairs one match produces: each tracking ID with the assignment's driver and transporter ID. */
  function Tagged(ids: seq<string>, a: Assignment): seq<ExecutionPair>
    decreases |ids|
  {
    if ids == [] then []
    else Tagged(ids[..|ids| - 1], a) + [ExecutionPair(ids[|ids| - 1], a.driver, a.transportId)]
  }

  /** The pairs one sheet produces, assignment by assignment. */
  function SheetPairs(e: Extraction, assignments: seq<Assignment>): seq<ExecutionPair>
    decreases |assignments|
  {
    if assignments == [] then []
    else
      var a := assignments[|assignments| - 1];
      SheetPairs(e, assignments[..|assignments| - 1]) + if a.course == e.code then Tagged(e.ids, a) else []
  }

  /** `execution_pairs`: the pairs of all sheets, sheet by sheet. */
  function AllPairs(es: seq<Extraction>, assignments: seq<Assignment>): seq<ExecutionPair>
    decreases |es|
  {
    if es == [] then []
    else AllPairs(es[..|es| - 1], assignments) + SheetPairs(es[|es| - 1], assignments)
  }

  /** The result map after one sheet has been matched against the assignments. */
  function SheetResults(results: map<string, ResultRecord>, e: Extraction, assignments: seq<Assignment>)
    : map<string, ResultRecord>
    decreases |assignments|
  {
    if assignments == [] then results
    else
      var a := assignments[|assignments| - 1];
      var r := SheetResults(results, e, assignments[..|assignments| - 1]);
      if a.course == e.code then r[e.code := ResultRecord(e.code, a.driver, a.transportId, e.ids)] else r
  }

  /** `results_by_course` after all sheets. */
  function AllResults(es: seq<Extraction>, assignments: seq<Assignment>): map<string, ResultRecord>
    decreases |es|
  {
    if es == [] then map[]
    else SheetResults(AllResults(es[..|es| - 1], assignments), es[|es| - 1], assignments)
  }

  /** What the execute step computes from a readable workbook. */
  function Resolution(sheets: seq<Sheet>, assignments: seq<Assignment>): (r: Resolved)
    requires Readable(sheets)
  {
    var es := ExtractAll(sheets);
    Resolved(AllResults(es, assignments), AllPairs(es, assignments))
  }

  /**
   * The sheet loop of the execute step. The extraction raises on a sheet
   * without a column B, which abandons the whole run: that is `None`.
   */
  method Resolve(sheets: seq<Sheet>, assignments: seq<Assignment>) returns (r: Option<Resolved>)
    ensures r.None? <==> !Readable(sheets)
    ensures r.Some? ==> Readable(sheets) && r.value == Resolution(sheets, assignments)
  {
    var results: map<string, ResultRecord> := map[];
    var pairs: seq<ExecutionPair> := [];
    for i := 0 to |sheets|
      invariant Readable(sheets[..i])
      invariant results == AllResults(ExtractAll(sheets[..i]), assignments)
      invariant pairs == AllPairs(ExtractAll(sheets[..i]), assignments)
    {
      var code := CourseFromSheetName(sheets[i].name);
      var extracted := ExtractTrackingIds(sheets[i].rows);
      if extracted.None? {
        return None;
      }
      var e := Extraction(code, extracted.value);
      results, pairs := MatchSheet(e, assignments, results, pairs);
      ExtractNext(sheets, i);
    }
    assert sheets[..|sheets|] == sheets;
    return Some(Resolved(results, pairs));
  }

  /** The assignment loop for one sheet: every matching assignment overwrites the course's result and appends its pairs. */
  method MatchSheet(e: Extraction, assignments: seq<Assignment>,
                    results: map<string, ResultRecord>, pairs: seq<ExecutionPair>)
    returns (resultsAfter: map<string, ResultRecord>, pairsAfter: seq<ExecutionPair>)
    ensures resultsAfter == SheetResults(results, e, assignments)
    ensures pairsAfter == pairs + SheetPairs(e, assignments)
  {
    resultsAfter, pairsAfter := results, pairs;
    for j := 0 to |assignments|
      invariant resultsAfter == SheetResults(results, e, assignments[..j])
      invariant pairsAfter == pairs + SheetPairs(e, assignments[..j])
    {
      var a := assignments[j];
      assert assignments[..j + 1][..j] == assignments[..j];
      if a.course == e.code {
        resultsAfter := resultsAfter[e.code := ResultRecord(e.code, a.driver, a.transportId, e.ids)];
        pairsAfter := AppendPairs(e.ids, a, pairsAfter);
      }
    }
    assert assignments[..|assignments|] == assignments;
  }

  /** The innermost loop: one pair per tracking ID. */
  method AppendPairs(ids: seq<string>, a: Assignment, pairs: seq<ExecutionPair>) returns (pairsAfter: seq<ExecutionPair>)
    ensures pairsAfter == pairs + Tagged(ids, a)
  {
    pairsAfter := pairs;
    for t := 0 to |ids|
      invariant pairsAfter == pairs + Tagged(ids[..t], a)
    {
      assert ids[..t + 1][..t] == ids[..t];
      pairsAfter := pairsAfter + [ExecutionPair(ids[t], a.driver, a.transportId)];
    }
    assert ids[..|ids|] == ids;
  }

  lemma ExtractNext(sheets: seq<Sheet>, i: nat)
    requires i < |sheets| && Readable(sheets[..i]) && HasColumn(sheets[i].rows, TrackingColumn)
    ensures Readable(sheets[..i + 1])
    ensures ExtractAll(sheets[..i + 1]) ==
      ExtractAll(sheets[..i]) + [Extraction(CourseFromSheetName(sheets[i].name), ExtractTrackingIds(sheets[i].rows).value)]
  {
    var next := sheets[..i + 1];
    assert next[..i] == sheets[..i];
    forall k | 0 <= k < |next| ensures HasColumn(next[k].rows, TrackingColumn) {
      if k < i { assert next[k] == sheets[..i][k]; }
    }
  }

  /** Extraction keeps the workbook's sheets in order: entry `i` is sheet `i`'s course code and tracking IDs. */
  lemma {:induction false} ExtractAllSpec(sheets: seq<Sheet>)
    requires Readable(sheets)
    ensures forall i :: 0 <= i < |sheets| ==>
      ExtractAll(sheets)[i] == Extraction(CourseFromSheetName(sheets[i].name), ExtractTrackingIds(sheets[i].rows).value)
    decreases |sheets|
  {
    if sheets != [] {
      var front := sheets[..|sheets| - 1];
      ExtractAllSpec(front);
      forall i | 0 <= i < |front| ensures front[i] == sheets[i] { }
    }
  }

  // ---------------------------------------------------------------------
  // Cardinality
  // ---------------------------------------------------------------------

  /** How many assignments name course `code`. */
  function MatchCount(code: string, assignments: seq<Assignment>): (n: nat)
    ensures n <= |assignments|
    decreases |assignments|
  {
    if assignments == [] then 0
    else MatchCount(code, assignments[..|assignments| - 1]) + if assignments[|assignments| - 1].course == code then 1 else 0
  }

  /** The sum, over the matching (sheet, assignment) pairs, of the sheet's number of tracking IDs. */
  function ExpectedPairCount(es: seq<Extraction>, assignments: seq<Assignment>): nat
    decreases |es|
  {
    if es == [] then 0
    else
      var last := es[|es| - 1];
      ExpectedPairCount(es[..|es| - 1], assignments) + MatchCount(last.code, assignments) * |last.ids|
  }

  /** A match contributes exactly its sheet's tracking IDs, in order, each tagged with the assignment. */
  lemma {:induction false} TaggedSpec(ids: seq<string>, a: Assignment)
    ensures |Tagged(ids, a)| == |ids|
    ensures forall k :: 0 <= k < |ids| ==> Tagged(ids, a)[k] == ExecutionPair(ids[k], a.driver, a.transportId)
    decreases |ids|
  {
    if ids != [] {
      var front := ids[..|ids| - 1];
      TaggedSpec(front, a);
      forall k | 0 <= k < |front| ensures front[k] == ids[k] { }
    }
  }

  lemma {:induction false} SheetPairCount(e: Extraction, assignments: seq<Assignment>)
    ensures |SheetPairs(e, assignments)| == MatchCount(e.code, assignments) * |e.ids|
    decreases |assignments|
  {
    if assignments != [] {
      var n := MatchCount(e.code, assignments[..|assignments| - 1]);
      SheetPairCount(e, assignments[..|assignments| - 1]);
      TaggedSpec(e.ids, assignments[|assignments| - 1]);
      MulStep(n, |e.ids|);
    }
  }

  lemma MulStep(n: nat, k: nat)
    ensures (n + 1) * k == n * k + k
  {
  }

  /** There are as many execution pairs as the matching (sheet, assignment) pairs have tracking IDs between them. */
  lemma {:induction false} PairCount(es: seq<Extraction>, assignments: seq<Assignment>)
    ensures |AllPairs(es, assignments)| == ExpectedPairCount(es, assignments)
    decreases |es|
  {
    if es != [] {
      PairCount(es[..|es| - 1], assignments);
      SheetPairCount(es[|es| - 1], assignments);
    }
  }

  // ---------------------------------------------------------------------
  // Which pairs are produced
  // ---------------------------------------------------------------------

  lemma {:induction false} SheetPairsExact(e: Extraction, assignments: seq<Assignment>)
    ensures forall p :: p in SheetPairs(e, assignments) <==>
      exists j, t :: 0 <= j < |assignments| && assignments[j].course == e.code && 0 <= t < |e.ids| &&
        p == ExecutionPair(e.ids[t], assignments[j].driver, assignments[j].transportId)
    decreases |assignments|
  {
    if assignments != [] {
      var front := assignments[..|assignments| - 1];
      var a := assignments[|assignments| - 1];
      SheetPairsExact(e, front);
      TaggedSpec(e.ids, a);
      forall p ensures p in SheetPairs(e, assignments) ==>
        exists j, t :: 0 <= j < |assignments| && assignments[j].course == e.code && 0 <= t < |e.ids| &&
          p == ExecutionPair(e.ids[t], assignments[j].driver, assignments[j].transportId)
      {
        if p in SheetPairs(e, front) {
          var j, t :| 0 <= j < |front| && front[j].course == e.code && 0 <= t < |e.ids| &&
            p == ExecutionPair(e.ids[t], front[j].driver, front[j].transportId);
          assert assignments[j] == front[j];
        } else if p in SheetPairs(e, assignments) {
          assert a.course == e.code && p in Tagged(e.ids, a);
          var t :| 0 <= t < |e.ids| && Tagged(e.ids, a)[t] == p;
          assert assignments[|assignments| - 1] == a;
        }
      }
      forall p, j, t | 0 <= j < |assignments| && assignments[j].course == e.code && 0 <= t < |e.ids| &&
          p == ExecutionPair(e.ids[t], assignments[j].driver, assignments[j].transportId)
        ensures p in SheetPairs(e, assignments)
      {
        if j < |front| {
          assert front[j] == assignments[j];
        } else {
          assert Tagged(e.ids, a)[t] == p;
        }
      }
    }
  }

  /** Pair `p` is tracking ID `t` of sheet `i` handed to the driver of a matching assignment `j`. */
  ghost predicate PairFrom(es: seq<Extraction>, assignments: seq<Assignment>, p: ExecutionPair) {
    exists i, j, t :: Matches(es, assignments, i, j) && 0 <= t < |es[i].ids| &&
      p == ExecutionPair(es[i].ids[t], assignments[j].driver, assignments[j].transportId)
  }

  /**
   * Every execution pair comes from a match, and every tracking ID of a
   * matched sheet is paired with the driver and transporter ID of every
   * assignment naming that sheet's course.
   */
  lemma {:induction false} PairsExact(es: seq<Extraction>, assignments: seq<Assignment>)
    ensures forall p :: p in AllPairs(es, assignments) <==> PairFrom(es, assignments, p)
    decreases |es|
  {
    if es != [] {
      PairsExact(es[..|es| - 1], assignments);
      forall p ensures p in AllPairs(es, assignments) <==> PairFrom(es, assignments, p) {
        PairStep(es, assignments, p);
      }
    }
  }

  /** One more sheet: a pair is produced by the sheets exactly when by the earlier ones or by the last. */
  lemma PairStep(es: seq<Extraction>, assignments: seq<Assignment>, p: ExecutionPair)
    requires es != []
    requires p in AllPairs(es[..|es| - 1], assignments) <==> PairFrom(es[..|es| - 1], assignments, p)
    ensures p in AllPairs(es, assignments) <==> PairFrom(es, assignments, p)
  {
    if p in AllPairs(es, assignments) {
      ProducedPairFrom(es, assignments, p);
    }
    if PairFrom(es, assignments, p) {
      PairFromProduced(es, assignments, p);
    }
  }

  lemma ProducedPairFrom(es: seq<Extraction>, assignments: seq<Assignment>, p: ExecutionPair)
    requires es != []
    requires p in AllPairs(es[..|es| - 1], assignments) ==> PairFrom(es[..|es| - 1], assignments, p)
    requires p in AllPairs(es, assignments)
    ensures PairFrom(es, assignments, p)
  {
    var front := es[..|es| - 1];
    var last := es[|es| - 1];
    assert AllPairs(es, assignments) == AllPairs(front, assignments) + SheetPairs(last, assignments);
    if p in AllPairs(front, assignments) {
      var i, j, t :| Matches(front, assignments, i, j) && 0 <= t < |front[i].ids| &&
        p == ExecutionPair(front[i].ids[t], assignments[j].driver, assignments[j].transportId);
      assert es[i] == front[i] && Matches(es, assignments, i, j);
    } else {
      assert p in SheetPairs(last, assignments);
      SheetPairsExact(last, assignments);
      var j, t :| 0 <= j < |assignments| && assignments[j].course == last.code && 0 <= t < |last.ids| &&
        p == ExecutionPair(last.ids[t], assignments[j].driver, assignments[j].transportId);
      assert Matches(es, assignments, |es| - 1, j);
    }
  }

  lemma PairFromProduced(es: seq<Extraction>, assignments: seq<Assignment>, p: ExecutionPair)
    requires es != []
    requires PairFrom(es[..|es| - 1], assignments, p) ==> p in AllPairs(es[..|es| - 1], assignments)
    requires PairFrom(es, assignments, p)
    ensures p in AllPairs(es, assignments)
  {
    var front := es[..|es| - 1];
    var last := es[|es| - 1];
    assert AllPairs(es, assignments) == AllPairs(front, assignments) + SheetPairs(last, assignments);
    var i, j, t :| Matches(es, assignments, i, j) && 0 <= t < |es[i].ids| &&
      p == ExecutionPair(es[i].ids[t], assignments[j].driver, assignments[j].transportId);
    if i < |front| {
      assert es[i] == front[i] && Matches(front, assignments, i, j);
      assert PairFrom(front, assignments, p);
    } else {
      SheetPairsExact(last, assignments);
      assert p in SheetPairs(last, assignments);
    }
  }

  /** No pair is produced exactly when every sheet whose course some assignment names has no tracking IDs. */
  lemma PairsEmptyExactly(es: seq<Extraction>, assignments: seq<Assignment>)
    ensures AllPairs(es, assignments) == [] <==>
      forall i, j :: Matches(es, assignments, i, j) ==> es[i].ids == []
  {
    var pairs := AllPairs(es, assignments);
    PairsExact(es, assignments);
    if pairs != [] {
      assert PairFrom(es, assignments, pairs[0]);
      var i, j, t :| Matches(es, assignments, i, j) && 0 <= t < |es[i].ids| &&
        pairs[0] == ExecutionPair(es[i].ids[t], assignments[j].driver, assignments[j].transportId);
      assert es[i].ids != [];
    } else {
      forall i, j | Matches(es, assignments, i, j) ensures es[i].ids == [] {
        if es[i].ids != [] {
          var p := ExecutionPair(es[i].ids[0], assignments[j].driver, assignments[j].transportId);
          assert PairFrom(es, assignments, p);
        }
      }
    }
  }

  // ---------------------------------------------------------------------
  // The result map
  // ---------------------------------------------------------------------

  /** The index of the last assignment naming `code`, or -1 when there is none. */
  function LastMatching(code: string, assignments: seq<Assignment>): (j: int)
    ensures -1 <= j < |assignments|
    ensures j >= 0 ==> assignments[j].course == code
    ensures forall j' :: j < j' < |assignments| ==> assignments[j'].course != code
    decreases |assignments|
  {
    if assignments == [] then -1
    else if assignments[|assignments| - 1].course == code then |assignments| - 1
    else LastMatching(code, assignments[..|assignments| - 1])
  }

  /**
   * One sheet leaves the map alone when no assignment names its course, and
   * otherwise sets its course to the record of the last assignment that does.
   */
  lemma {:induction false} SheetResultsSpec(results: map<string, ResultRecord>, e: Extraction, assignments: seq<Assignment>)
    ensures var j := LastMatching(e.code, assignments);
      SheetResults(results, e, assignments) ==
        if j < 0 then results
        else results[e.code := ResultRecord(e.code, assignments[j].driver, assignments[j].transportId, e.ids)]
    decreases |assignments|
  {
    if assignments != [] {
      var front := assignments[..|assignments| - 1];
      SheetResultsSpec(results, e, front);
      if assignments[|assignments| - 1].course != e.code {
        var j := LastMatching(e.code, front);
        if j >= 0 { assert assignments[j] == front[j]; }
      }
    }
  }

  /** Match `(i, j)` is the last one, in iteration order, for its course. */
  ghost predicate LastMatch(es: seq<Extraction>, assignments: seq<Assignment>, i: int, j: int) {
    Matches(es, assignments, i, j) &&
    forall i', j' :: Matches(es, assignments, i', j') && es[i'].code == es[i].code ==> i' < i || (i' == i && j' <= j)
  }

  /** `results_by_course` has an entry exactly for the sheet course codes that some assignment names. */
  lemma {:induction false} ResultKeys(es: seq<Extraction>, assignments: seq<Assignment>)
    ensures forall c :: c in AllResults(es, assignments) <==>
      exists i, j :: Matches(es, assignments, i, j) && es[i].code == c
    decreases |es|
  {
    if es != [] {
      var front := es[..|es| - 1];
      var last := es[|es| - 1];
      var n := |es| - 1;
      ResultKeys(front, assignments);
      var prev := AllResults(front, assignments);
      var jl := LastMatching(last.code, assignments);
      SheetResultsSpec(prev, last, assignments);
      var now := AllResults(es, assignments);
      assert now == SheetResults(prev, last, assignments);
      forall c ensures c in now <==> exists i, j :: Matches(es, assignments, i, j) && es[i].code == c {
        if exists i, j :: Matches(es, assignments, i, j) && es[i].code == c {
          var i, j :| Matches(es, assignments, i, j) && es[i].code == c;
          if i < n {
            assert es[i] == front[i] && Matches(front, assignments, i, j);
          } else {
            assert jl >= j;
          }
        }
        if c in prev {
          var i, j :| Matches(front, assignments, i, j) && front[i].code == c;
          assert es[i] == front[i] && Matches(es, assignments, i, j);
        }
        if c in now && c !in prev {
          assert Matches(es, assignments, n, jl);
        }
      }
    }
  }

  /**
   * Each entry of `results_by_course` is the record of the last match for
   * its course: the driver and transporter ID of that assignment with the
   * tracking IDs of that sheet.
   */
  lemma {:induction false} ResultsFromLastMatch(es: seq<Extraction>, assignments: seq<Assignment>)
    ensures forall c :: c in AllResults(es, assignments) ==>
      exists i, j :: LastMatch(es, assignments, i, j) && es[i].code == c &&
        AllResults(es, assignments)[c] == ResultRecord(c, assignments[j].driver, assignments[j].transportId, es[i].ids)
    decreases |es|
  {
    if es != [] {
      var front := es[..|es| - 1];
      var last := es[|es| - 1];
      var n := |es| - 1;
      ResultsFromLastMatch(front, assignments);
      var prev := AllResults(front, assignments);
      var jl := LastMatching(last.code, assignments);
      SheetResultsSpec(prev, last, assignments);
      var now := AllResults(es, assignments);
      assert now == SheetResults(prev, last, assignments);
      forall c | c in now
        ensures exists i, j :: (LastMatch(es, assignments, i, j) && es[i].code == c &&
          now[c] == ResultRecord(c, assignments[j].driver, assignments[j].transportId, es[i].ids))
      {
        if jl >= 0 && c == last.code {
          assert LastMatch(es, assignments, n, jl);
        } else {
          assert c in prev && now[c] == prev[c];
          var i, j :| LastMatch(front, assignments, i, j) && front[i].code == c &&
            prev[c] == ResultRecord(c, assignments[j].driver, assignments[j].transportId, front[i].ids);
          assert es[i] == front[i];
          forall i', j' | Matches(es, assignments, i', j') && es[i'].code == es[i].code
            ensures i' < i || (i' == i && j' <= j)
          {
            if i' < n {
              assert es[i'] == front[i'] && Matches(front, assignments, i', j');
            } else {
              assert false;
            }
          }
          assert LastMatch(es, assignments, i, j);
        }
      }
    }
  }
}
