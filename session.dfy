/**
 * The execute action and the state it keeps: the checks on its inputs, the
 * store-or-warn rule for the per-course results, and the copy texts built
 * from the execution pairs.
 */
module Session {
  import opened Wrappers
  import opened Text
  import opened Unique
  import opened Sheets
  import opened Slots
  import opened Resolver
  import opened Roster

  /** The copy text of a list of IDs: joined with newlines, then every newline written as the two characters `\n`. */
  function CopyText(ids: seq<string>): string {
    EscapeNewlines(Join("\n", ids))
  }

  /** The tracking IDs of the pairs, in order. */
  function TrackingIdsOf(pairs: seq<ExecutionPair>): (ids: seq<string>)
    ensures |ids| == |pairs|
    ensures forall k :: 0 <= k < |pairs| ==> ids[k] == pairs[k].trackingId
    decreases |pairs|
  {
    if pairs == [] then [] else TrackingIdsOf(pairs[..|pairs| - 1]) + [pairs[|pairs| - 1].trackingId]
  }

  /** The transporter IDs of the pairs, in order, duplicates included. */
  function TransportIdsOf(pairs: seq<ExecutionPair>): (ids: seq<string>)
    ensures |ids| == |pairs|
    ensures forall k :: 0 <= k < |pairs| ==> ids[k] == pairs[k].transportId
    decreases |pairs|
  {
    if pairs == [] then [] else TransportIdsOf(pairs[..|pairs| - 1]) + [pairs[|pairs| - 1].transportId]
  }

  /** The set of the pairs' transporter IDs, listed once each. */
  function UniqueTransportIds(pairs: seq<ExecutionPair>): seq<string> {
    Distinct(TransportIdsOf(pairs))
  }

  /** How an execute action ends. Only `Ready` stores its results. */
  datatype Outcome =
    | MissingWorkbook
    | NoAssignments
    | ExtractionFailed
    | NoMatch
    | Ready(results: map<string, ResultRecord>, pairs: seq<ExecutionPair>,
            trackingCopyText: string, transporterCopyText: string)

  /** What an execute action produces from the uploaded workbook (if any) and the collected assignments. */
  function Run(workbook: Option<seq<Sheet>>, assignments: seq<Assignment>): Outcome {
    if workbook.None? then MissingWorkbook
    else if assignments == [] then NoAssignments
    else if !Readable(workbook.value) then ExtractionFailed
    else
      var r := Resolution(workbook.value, assignments);
      if r.executionPairs == [] then NoMatch
      else Ready(r.resultsByCourse, r.executionPairs,
                 CopyText(TrackingIdsOf(r.executionPairs)), CopyText(UniqueTransportIds(r.executionPairs)))
  }

  /** The session state the page keeps between runs. */
  class Session {
    /** `results_by_course`: the per-course results of the last execute action that matched something. */
    var resultsByCourse: map<string, ResultRecord>

    /** A new session starts with no stored results. */
    constructor()
      ensures resultsByCourse == map[]
    {
      resultsByCourse := map[];
    }

    /**
     * The execute button: refuses a missing workbook or an empty assignment
     * list, resolves the workbook against the assignments and stores the
     * results, replacing the old ones wholesale, only when some pair was
     * produced.
     */
    method Execute(workbook: Option<seq<Sheet>>, assignments: seq<Assignment>) returns (outcome: Outcome)
      modifies this
      ensures outcome == Run(workbook, assignments)
      ensures resultsByCourse == if outcome.Ready? then outcome.results else old(resultsByCourse)
    {
      if workbook.None? {
        return MissingWorkbook;
      }
      if assignments == [] {
        return NoAssignments;
      }
      var resolved := Resolve(workbook.value, assignments);
      if resolved.None? {
        return ExtractionFailed;
      }
      var pairs := resolved.value.executionPairs;
      if pairs == [] {
        return NoMatch;
      }
      var trackingCopyText := CopyText(TrackingIdsOf(pairs));
      var transporterCopyText := CopyText(UniqueTransportIds(pairs));
      resultsByCourse := resolved.value.resultsByCourse;
      outcome := Ready(resultsByCourse, pairs, trackingCopyText, transporterCopyText);
    }

    /**
     * The per-slot copy buttons of an active slot: the stored result for its
     * course, if any, as the copy text of its tracking IDs and its
     * transporter ID.
     */
    function CoursePayload(course: string): (payload: Option<(string, string)>)
      reads this
      ensures payload.Some? <==> course in resultsByCourse
      ensures payload.Some? ==>
        && '\n' !in payload.value.0
        && payload.value.0 == Join("\\n", EscapeEach(resultsByCourse[course].trackingIds))
        && payload.value.1 == resultsByCourse[course].transportId
    {
      if course in resultsByCourse then
        var record := resultsByCourse[course];
        CopyTextSpec(record.trackingIds);
        Some((CopyText(record.trackingIds), record.transportId))
      else None
    }
  }

  /**
   * The copy text holds no line break: every break, whether between IDs or
   * inside one, is written as backslash and `n`. When the IDs themselves have
   * no line break it is simply the IDs joined by backslash and `n`.
   */
  lemma CopyTextSpec(ids: seq<string>)
    ensures '\n' !in CopyText(ids)
    ensures CopyText(ids) == Join("\\n", EscapeEach(ids))
    ensures (forall k :: 0 <= k < |ids| ==> '\n' !in ids[k]) ==> CopyText(ids) == Join("\\n", ids)
  {
    EscapeNewlinesSpec(Join("\n", ids));
    EscapedJoin(ids);
    if forall k :: 0 <= k < |ids| ==> '\n' !in ids[k] {
      EscapeEachIdentity(ids);
    }
  }

  /** The transporter list holds each transporter ID of the pairs exactly once. */
  lemma UniqueTransportIdsSpec(pairs: seq<ExecutionPair>)
    ensures forall t :: t in UniqueTransportIds(pairs) <==> exists k :: 0 <= k < |pairs| && pairs[k].transportId == t
    ensures forall i, j :: 0 <= i < j < |UniqueTransportIds(pairs)| ==> UniqueTransportIds(pairs)[i] != UniqueTransportIds(pairs)[j]
  {
    var ids := TransportIdsOf(pairs);
    forall t | t in UniqueTransportIds(pairs) ensures exists k :: 0 <= k < |pairs| && pairs[k].transportId == t {
      var k :| 0 <= k < |ids| && ids[k] == t;
      assert pairs[k].transportId == t;
    }
    forall t | exists k :: 0 <= k < |pairs| && pairs[k].transportId == t ensures t in UniqueTransportIds(pairs) {
      var k :| 0 <= k < |pairs| && pairs[k].transportId == t;
      assert ids[k] == t;
    }
  }

  /**
   * An execute action warns of no match exactly when the workbook is
   * readable, there are assignments, and every sheet whose course some
   * assignment names has no tracking IDs (in particular when no course
   * matches at all).
   */
  lemma NoMatchExactly(workbook: Option<seq<Sheet>>, assignments: seq<Assignment>)
    ensures Run(workbook, assignments) == NoMatch <==>
      && workbook.Some? && assignments != [] && Readable(workbook.value)
      && forall i, j :: Matches(ExtractAll(workbook.value), assignments, i, j) ==> ExtractAll(workbook.value)[i].ids == []
  {
    if workbook.Some? && assignments != [] && Readable(workbook.value) {
      var es := ExtractAll(workbook.value);
      RunPairs(workbook.value, assignments);
      PairsEmptyExactly(es, assignments);
    } else {
      assert Run(workbook, assignments) != NoMatch;
    }
  }

  /** On a readable workbook with assignments, the run warns of no match exactly when no pair was produced. */
  lemma RunPairs(workbook: seq<Sheet>, assignments: seq<Assignment>)
    requires assignments != [] && Readable(workbook)
    ensures Run(Some(workbook), assignments) == NoMatch <==> AllPairs(ExtractAll(workbook), assignments) == []
  {
  }

  /**
   * A successful execute action stores one result per matched course, the
   * one of the last match, hands out every tracking ID of every match, and
   * copies the transporter IDs of those pairs, each exactly once.
   */
  lemma ReadyOutcome(workbook: Option<seq<Sheet>>, assignments: seq<Assignment>)
    requires Run(workbook, assignments).Ready?
    ensures workbook.Some? && Readable(workbook.value)
    ensures var es, o := ExtractAll(workbook.value), Run(workbook, assignments);
      && (forall c :: c in o.results <==> exists i, j :: Matches(es, assignments, i, j) && es[i].code == c)
      && (forall c :: c in o.results ==> exists i, j ::
            (LastMatch(es, assignments, i, j) && es[i].code == c &&
             o.results[c] == ResultRecord(c, assignments[j].driver, assignments[j].transportId, es[i].ids)))
      && (forall p :: p in o.pairs <==> PairFrom(es, assignments, p))
      && |o.pairs| == ExpectedPairCount(es, assignments)
      && o.trackingCopyText == CopyText(TrackingIdsOf(o.pairs))
      && o.transporterCopyText == CopyText(UniqueTransportIds(o.pairs))
      && (forall t :: t in UniqueTransportIds(o.pairs) <==> exists k :: 0 <= k < |o.pairs| && o.pairs[k].transportId == t)
      && (forall i, j :: 0 <= i < j < |UniqueTransportIds(o.pairs)| ==> UniqueTransportIds(o.pairs)[i] != UniqueTransportIds(o.pairs)[j])
  {
    var es := ExtractAll(workbook.value);
    ResultKeys(es, assignments);
    ResultsFromLastMatch(es, assignments);
    PairsExact(es, assignments);
    PairCount(es, assignments);
    UniqueTransportIdsSpec(AllPairs(es, assignments));
  }

  // The worked example. Where a lemma below needs a literal (a pair, an
  // assignment, a workbook), it takes it as a parameter pinned down by a
  // `requires`. The verifier then reasons about one name instead of expanding
  // the literal at every use, which keeps each of these proofs small.

  /** The example roster: Alice with TR1 and Bob with TR2. */
  const ExampleRoster: seq<RosterRow> := [RosterRow(Some("Alice"), Some("TR1")), RosterRow(Some("Bob"), Some("TR2"))]

  /** The example sheet: a title cell, two more rows of header, then two tracking IDs in column B. */
  const ExampleRows: seq<seq<Cell>> :=
    [[Filled("ROUTE"), Empty], [Empty, Empty], [Empty, Empty], [Empty, Filled("TBA111")], [Empty, Filled("TBA222")]]

  lemma ExampleRosterLoaded()
    ensures LoadRoster(Some(ExampleRoster)) == Roster(map["Alice" := "TR1", "Bob" := "TR2"], ["Alice", "Bob"])
  {
    var first := ExampleRoster[..1];
    assert first == [RosterRow(Some("Alice"), Some("TR1"))];
    assert first[..0] == [];
    assert TransportMap(first) == map["Alice" := "TR1"];
    assert TransportMap(ExampleRoster) == map["Alice" := "TR1", "Bob" := "TR2"];
    assert CompleteNames(ExampleRoster) == ["Alice", "Bob"];
    assert Distinct(["Alice", "Bob"]) == ["Alice", "Bob"];
  }

  lemma ExampleExtraction()
    ensures HasColumn(ExampleRows, TrackingColumn)
    ensures ExtractTrackingIds(ExampleRows) == Some(["TBA111", "TBA222"])
  {
    assert 3 < |ExampleRows| && TrackingColumn < |ExampleRows[3]| && ExampleRows[3][TrackingColumn].Filled?;
    assert HasColumn(ExampleRows, TrackingColumn);
    var col := ColumnFrom(ExampleRows, TrackingColumn, FirstTrackingRow);
    assert col == [Filled("TBA111"), Filled("TBA222")];
    assert col[..1] == [Filled("TBA111")];
    assert col[..1][..0] == [];
    assert Present(col[..1]) == ["TBA111"];
    assert Present(col) == ["TBA111", "TBA222"];
  }

  /** A first slot storing a roster driver keeps that driver. */
  lemma ExampleFirstChoice(available: seq<string>, slots: seq<SlotInput>)
    requires available == ["Alice", "Bob"]
    requires |slots| == SlotCount && slots[0] == SlotInput("100", "Alice")
    ensures Choice(available, slots, 1) == "Alice"
  {
    StoredChoiceKept(available, slots, 1);
  }

  /** A first slot that is active makes the first assignment. */
  lemma FirstSlotAssigns(prefix: Prefix, transportMap: map<string, string>, available: seq<string>, slots: seq<SlotInput>)
    requires 1 <= |slots| && SlotActive(available, slots, 1)
    ensures Assignments(prefix, transportMap, available, slots, 1) == [SlotAssignment(prefix, transportMap, available, slots, 1)]
  {
  }

  /** Course number "100" and driver "Alice" are left as they are by strip, and neither is blank. */
  lemma ExampleStrips(number: string, driver: string)
    requires number == "100" && driver == "Alice"
    ensures Strip(number) == number && Strip(driver) == driver
    ensures !AllSpace(number) && !AllSpace(driver)
  {
    assert !IsSpace(number[0]) && !IsSpace(number[2]);
    assert !IsSpace(driver[0]) && !IsSpace(driver[4]);
    StripTrimmed(number);
    StripTrimmed(driver);
  }

  /** A slot whose course number strips to "100" and whose driver strips to Alice makes the assignment (CX100, Alice, TR1). */
  lemma ExampleSlotAssignment(transportMap: map<string, string>, number: string, driver: string)
    requires transportMap == map["Alice" := "TR1", "Bob" := "TR2"]
    requires Strip(number) == "100" && Strip(driver) == "Alice"
    ensures Assignment(CX.Label() + Strip(number), Strip(driver), Lookup(transportMap, Strip(driver)))
      == Assignment("CX100", "Alice", "TR1")
  {
  }

  /**
   * With the example roster and prefix CX, a first slot holding course
   * number "100" and driver Alice yields the assignment (CX100, Alice, TR1).
   */
  lemma ExampleAssignment(transportMap: map<string, string>, available: seq<string>, slots: seq<SlotInput>)
    requires transportMap == LoadRoster(Some(ExampleRoster)).transportMap
    requires available == LoadRoster(Some(ExampleRoster)).availableDrivers
    requires |slots| == SlotCount && slots[0] == SlotInput("100", "Alice")
    ensures Assignments(CX, transportMap, available, slots, 1) == [Assignment("CX100", "Alice", "TR1")]
  {
    ExampleRosterLoaded();
    ExampleFirstChoice(available, slots);
    ExampleStrips(slots[0].courseNumber, Choice(available, slots, 1));
    ExampleSlotAssignment(transportMap, slots[0].courseNumber, Choice(available, slots, 1));
    FirstSlotAssigns(CX, transportMap, available, slots);
  }

  /** A workbook of one example sheet whose name ends in `_` and a five-letter code is readable and yields that code and the two IDs. */
  lemma ExampleSheetExtracted(workbook: seq<Sheet>, name: string, code: string)
    requires workbook == [Sheet(name, ExampleRows)]
    requires |name| == 11 && name[..6] == "ROUTE_" && code == name[6..] && '_' !in code
    ensures Readable(workbook) && ExtractAll(workbook) == [Extraction(code, ["TBA111", "TBA222"])]
  {
    ExampleExtraction();
    CourseAfterLastUnderscore(name, 5);
    assert workbook[..0] == [];
  }

  /** One sheet matched by one assignment tags each of its IDs with that assignment and stores one result. */
  lemma ExampleMatch(e: Extraction, a: Assignment)
    requires e == Extraction("CX100", ["TBA111", "TBA222"]) && a == Assignment("CX100", "Alice", "TR1")
    ensures AllPairs([e], [a]) == [ExecutionPair("TBA111", "Alice", "TR1"), ExecutionPair("TBA222", "Alice", "TR1")]
    ensures AllResults([e], [a]) == map["CX100" := ResultRecord("CX100", "Alice", "TR1", ["TBA111", "TBA222"])]
  {
    assert [e][..0] == [] && [a][..0] == [];
    assert e.ids[..1] == ["TBA111"] && e.ids[..1][..0] == [];
    PairsOfOne(e, [a]);
    assert SheetPairs(e, [a]) == Tagged(e.ids, a);
    assert Tagged(e.ids[..1], a) == [ExecutionPair("TBA111", "Alice", "TR1")];
    assert SheetResults(map[], e, [a]) == map[][e.code := ResultRecord(e.code, a.driver, a.transportId, e.ids)];
  }

  /** Two IDs without line breaks are copied as the first, backslash and `n`, then the second. */
  lemma CopyTextOfTwo(first: string, second: string)
    requires '\n' !in first && '\n' !in second
    ensures CopyText([first, second]) == first + "\\n" + second
  {
    CopyTextSpec([first, second]);
    assert [first, second][1..] == [second];
  }

  /** The IDs of two pairs, in order. */
  lemma IdsOfTwo(p: ExecutionPair, q: ExecutionPair)
    ensures TrackingIdsOf([p, q]) == [p.trackingId, q.trackingId]
    ensures TransportIdsOf([p, q]) == [p.transportId, q.transportId]
  {
    assert [p, q][..1] == [p] && [p][..0] == [];
  }

  /** The tracking copy text of the two example pairs: both IDs joined by backslash and `n`. */
  lemma ExampleTrackingCopyText(p: ExecutionPair, q: ExecutionPair)
    requires p == ExecutionPair("TBA111", "Alice", "TR1") && q == ExecutionPair("TBA222", "Alice", "TR1")
    ensures CopyText(TrackingIdsOf([p, q])) == "TBA111" + "\\n" + "TBA222"
  {
    IdsOfTwo(p, q);
    assert '\n' !in p.trackingId && '\n' !in q.trackingId;
    CopyTextOfTwo(p.trackingId, q.trackingId);
  }

  /** Two pairs with the same transporter ID list that ID once. */
  lemma SameTransporterOnce(p: ExecutionPair, q: ExecutionPair)
    requires p.transportId == q.transportId
    ensures UniqueTransportIds([p, q]) == [p.transportId]
  {
    IdsOfTwo(p, q);
    var t := p.transportId;
    assert [t, t][..1] == [t] && [t][..0] == [];
    assert Distinct([t]) == [t];
    assert Distinct([t, t]) == [t];
  }

  /** One ID without line breaks is copied as it is. */
  lemma CopyTextOfOne(id: string)
    requires '\n' !in id
    ensures CopyText([id]) == id
  {
    EscapeNewlinesIdentity(id);
  }

  /** The transporter copy text of the two example pairs: their one transporter ID, once. */
  lemma ExampleTransporterCopyText(p: ExecutionPair, q: ExecutionPair)
    requires p == ExecutionPair("TBA111", "Alice", "TR1") && q == ExecutionPair("TBA222", "Alice", "TR1")
    ensures CopyText(UniqueTransportIds([p, q])) == "TR1"
  {
    SameTransporterOnce(p, q);
    assert '\n' !in p.transportId;
    CopyTextOfOne(p.transportId);
  }

  /**
   * Executing that assignment against a workbook whose one sheet is named
   * ROUTE_CX100 stores the CX100 result and produces the two pairs and the
   * copy texts `TBA111\nTBA222` and `TR1`.
   */
  lemma ExampleRun(workbook: seq<Sheet>, assignments: seq<Assignment>)
    requires workbook == [Sheet("ROUTE_CX100", ExampleRows)]
    requires assignments == [Assignment("CX100", "Alice", "TR1")]
    ensures Run(Some(workbook), assignments) ==
      Ready(map["CX100" := ResultRecord("CX100", "Alice", "TR1", ["TBA111", "TBA222"])],
            [ExecutionPair("TBA111", "Alice", "TR1"), ExecutionPair("TBA222", "Alice", "TR1")],
            "TBA111" + "\\n" + "TBA222", "TR1")
  {
    ExampleSheetExtracted(workbook, "ROUTE_CX100", "CX100");
    ExampleMatch(Extraction("CX100", ["TBA111", "TBA222"]), assignments[0]);
    ExampleTrackingCopyText(ExecutionPair("TBA111", "Alice", "TR1"), ExecutionPair("TBA222", "Alice", "TR1"));
    ExampleTransporterCopyText(ExecutionPair("TBA111", "Alice", "TR1"), ExecutionPair("TBA222", "Alice", "TR1"));
  }

  /**
   * The example from start to finish: the example roster, prefix CX, slot 1
   * holding course number "100" and driver Alice, every other slot with an
   * empty course number, and a workbook whose one sheet is ROUTE_CX100. The
   * twenty slots collect the one assignment (CX100, Alice, TR1), and
   * executing it is the run of `ExampleRun`.
   */
  lemma ExampleEndToEnd(transportMap: map<string, string>, available: seq<string>, slots: seq<SlotInput>,
                        workbook: seq<Sheet>)
    requires transportMap == LoadRoster(Some(ExampleRoster)).transportMap
    requires available == LoadRoster(Some(ExampleRoster)).availableDrivers
    requires |slots| == SlotCount && slots[0] == SlotInput("100", "Alice")
    requires forall k :: 1 <= k < |slots| ==> slots[k].courseNumber == ""
    requires workbook == [Sheet("ROUTE_CX100", ExampleRows)]
    ensures Assignments(CX, transportMap, available, slots, SlotCount) == [Assignment("CX100", "Alice", "TR1")]
    ensures Run(Some(workbook), Assignments(CX, transportMap, available, slots, SlotCount)) ==
      Ready(map["CX100" := ResultRecord("CX100", "Alice", "TR1", ["TBA111", "TBA222"])],
            [ExecutionPair("TBA111", "Alice", "TR1"), ExecutionPair("TBA222", "Alice", "TR1")],
            "TBA111" + "\\n" + "TBA222", "TR1")
  {
    forall k | 1 <= k < |slots| ensures AllSpace(slots[k].courseNumber) { }
    BlankSlotsAssignNothing(CX, transportMap, available, slots, SlotCount);
    ExampleAssignment(transportMap, available, slots);
    ExampleRun(workbook, Assignments(CX, transportMap, available, slots, SlotCount));
  }

  lemma PairsOfOne(e: Extraction, assignments: seq<Assignment>)
    ensures AllPairs([e], assignments) == SheetPairs(e, assignments)
  {
    assert [e][..0] == [];
  }

  /** The same run against a sheet named ROUTE_CX999 matches nothing and only warns. */
  lemma ExampleNoMatch(workbook: seq<Sheet>, assignments: seq<Assignment>)
    requires workbook == [Sheet("ROUTE_CX999", ExampleRows)]
    requires assignments == [Assignment("CX100", "Alice", "TR1")]
    ensures Run(Some(workbook), assignments) == NoMatch
  {
    var e := Extraction("CX999", ["TBA111", "TBA222"]);
    assert "CX999"[2] != "CX100"[2];
    assert SheetPairs(e, assignments) == [];
    ExampleSheetExtracted(workbook, "ROUTE_CX999", "CX999");
    PairsOfOne(e, assignments);
  }
}
