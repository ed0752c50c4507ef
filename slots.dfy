/**
 * The twenty input slots of the page. Each slot offers a sorted list of
 * drivers, leaving out drivers already chosen by an earlier slot unless it
 * is the slot's own stored choice, and an active slot (course number and
 * driver both non-blank) becomes an assignment.
 */
module Slots {
  import opened Text
  import opened Ordering

  const SlotCount: nat := 20

  /** The course prefix shared by every slot; the selector offers exactly these three. */
  datatype Prefix = NoPrefix | CX | MX {
    function Label(): string {
      match this
      case NoPrefix => ""
      case CX => "CX"
      case MX => "MX"
    }
  }

  /** What the page holds for a slot when the script runs: the typed course number and the stored driver choice. */
  datatype SlotInput = SlotInput(courseNumber: string, storedDriver: string)

  datatype Assignment = Assignment(course: string, driver: string, transportId: string)

  /** `others_selected`: the non-empty choices of the slots other than `i` recorded so far. */
  function OthersSelected(selections: map<int, string>, i: int): set<string> {
    set j | j in selections && j != i && selections[j] != "" :: selections[j]
  }

  /** The roster drivers a slot may offer: its own stored choice, or anyone no other slot holds. */
  function Offerable(available: seq<string>, others: set<string>, current: string): seq<string>
    decreases |available|
  {
    if available == [] then []
    else
      var r := Offerable(available[..|available| - 1], others, current);
      var d := available[|available| - 1];
      if d == current || d !in others then r + [d] else r
  }

  /** The filter keeps exactly the drivers it should, each no more often than the roster lists it. */
  lemma {:induction false} OfferableSpec(available: seq<string>, others: set<string>, current: string)
    ensures var r := Offerable(available, others, current);
      && (forall d :: d in r <==> d in available && (d == current || d !in others))
      && multiset(r) <= multiset(available)
    decreases |available|
  {
    if available != [] {
      var front := available[..|available| - 1];
      var d := available[|available| - 1];
      assert available == front + [d];
      OfferableSpec(front, others, current);
    }
  }

  /** `selectable_drivers`: the empty choice, then the offerable drivers sorted. */
  function SlotOptions(available: seq<string>, others: set<string>, current: string): (options: seq<string>)
    ensures |options| >= 1 && options[0] == ""
  {
    [""] + SortStrings(Offerable(available, others, current))
  }

  /**
   * A slot's options: the empty choice first, then, sorted, the roster
   * drivers that are its stored choice or are not held by another slot.
   */
  lemma SlotOptionsShape(available: seq<string>, others: set<string>, current: string)
    ensures var options := SlotOptions(available, others, current);
      && Sorted(options[1..])
      && (forall d :: d in options[1..] <==> d in available && (d == current || d !in others))
      && multiset(options[1..]) <= multiset(available)
  {
    var offered := Offerable(available, others, current);
    var sorted := SortStrings(offered);
    OfferableSpec(available, others, current);
    SortStringsCorrect(offered);
    assert SlotOptions(available, others, current)[1..] == sorted;
    assert forall d :: d in sorted <==> d in multiset(sorted);
    assert forall d :: d in offered <==> d in multiset(offered);
  }

  /** The selectbox: it shows the stored choice while that is offered, and otherwise its first option. */
  function Pick(options: seq<string>, stored: string): (d: string)
    requires options != []
    ensures d in options
  {
    if stored in options then stored else options[0]
  }

  /** `driver_selections` after slots 1 to `n` have been drawn. */
  function Selections(available: seq<string>, slots: seq<SlotInput>, n: nat): (sel: map<int, string>)
    requires n <= |slots|
    ensures forall j :: j in sel <==> 1 <= j <= n
  {
    if n == 0 then map[]
    else
      var prev := Selections(available, slots, n - 1);
      var stored := slots[n - 1].storedDriver;
      prev[n := Pick(SlotOptions(available, OthersSelected(prev, n), stored), stored)]
  }

  /** The options slot `i` offers, given the choices of the slots drawn before it. */
  function OptionsAt(available: seq<string>, slots: seq<SlotInput>, i: nat): (options: seq<string>)
    requires 1 <= i <= |slots|
    ensures options != []
  {
    SlotOptions(available, OthersSelected(Selections(available, slots, i - 1), i), slots[i - 1].storedDriver)
  }

  /** The driver slot `i` ends up with. */
  function Choice(available: seq<string>, slots: seq<SlotInput>, i: nat): string
    requires 1 <= i <= |slots|
  {
    Selections(available, slots, i)[i]
  }

  /**
   * A slot is active when its course number and its driver both strip to a
   * non-empty string, that is, both hold a non-whitespace character.
   */
  predicate Active(courseNumber: string, driver: string) {
    !AllSpace(courseNumber) && !AllSpace(driver)
  }

  /** `transport_map.get(name, "")`. */
  function Lookup(transportMap: map<string, string>, name: string): string {
    if name in transportMap then transportMap[name] else ""
  }

  /** The assignment an active slot `k` makes: the prefixed, stripped course number, the stripped driver and its transporter ID. */
  function SlotAssignment(prefix: Prefix, transportMap: map<string, string>, available: seq<string>,
                          slots: seq<SlotInput>, k: nat): Assignment
    requires 1 <= k <= |slots|
  {
    var driver := Strip(Choice(available, slots, k));
    Assignment(prefix.Label() + Strip(slots[k - 1].courseNumber), driver, Lookup(transportMap, driver))
  }

  /** The assignments made by slots 1 to `n`, in slot order. */
  function Assignments(prefix: Prefix, transportMap: map<string, string>, available: seq<string>,
                       slots: seq<SlotInput>, n: nat): seq<Assignment>
    requires n <= |slots|
    decreases n
  {
    if n == 0 then []
    else
      var prev := Assignments(prefix, transportMap, available, slots, n - 1);
      if SlotActive(available, slots, n) then
        prev + [SlotAssignment(prefix, transportMap, available, slots, n)]
      else prev
  }

  /** Slot `k` is active: its course number and its driver are both non-blank. */
  predicate SlotActive(available: seq<string>, slots: seq<SlotInput>, k: nat)
    requires 1 <= k <= |slots|
  {
    Active(slots[k - 1].courseNumber, Choice(available, slots, k))
  }

  /** Whether each of slots 1 to `n` is active. */
  function ActiveFlags(available: seq<string>, slots: seq<SlotInput>, n: nat): (flags: seq<bool>)
    requires n <= |slots|
    ensures |flags| == n
    decreases n
  {
    if n == 0 then [] else ActiveFlags(available, slots, n - 1) + [SlotActive(available, slots, n)]
  }

  /** The (1-based) positions of the set flags, in increasing order. */
  function SetPositions(flags: seq<bool>): (ps: seq<nat>)
    ensures |ps| <= |flags|
    decreases |flags|
  {
    if flags == [] then []
    else SetPositions(flags[..|flags| - 1]) + if flags[|flags| - 1] then [|flags|] else []
  }

  /** The active slots among 1 to `n`, in increasing order. */
  function ActiveSlots(available: seq<string>, slots: seq<SlotInput>, n: nat): (ks: seq<nat>)
    requires n <= |slots|
    ensures |ks| <= n
  {
    SetPositions(ActiveFlags(available, slots, n))
  }

  /** Slots after the first whose course numbers are blank add no assignment, whatever driver they hold. */
  lemma {:induction false} BlankSlotsAssignNothing(prefix: Prefix, transportMap: map<string, string>,
                                                   available: seq<string>, slots: seq<SlotInput>, n: nat)
    requires 1 <= n <= |slots|
    requires forall k :: 1 <= k < |slots| ==> AllSpace(slots[k].courseNumber)
    ensures Assignments(prefix, transportMap, available, slots, n) == Assignments(prefix, transportMap, available, slots, 1)
    decreases n
  {
    if n > 1 {
      BlankSlotsAssignNothing(prefix, transportMap, available, slots, n - 1);
      InactiveSlotAssignsNothing(prefix, transportMap, available, slots, n);
    }
  }

  /** A slot whose course number is blank is inactive and adds no assignment. */
  lemma InactiveSlotAssignsNothing(prefix: Prefix, transportMap: map<string, string>,
                                   available: seq<string>, slots: seq<SlotInput>, n: nat)
    requires 1 <= n <= |slots| && AllSpace(slots[n - 1].courseNumber)
    ensures !SlotActive(available, slots, n)
    ensures Assignments(prefix, transportMap, available, slots, n) == Assignments(prefix, transportMap, available, slots, n - 1)
  {
  }

  /**
   * The slot loop of the page: draws the twenty slots in order, recording
   * each slot's driver and collecting the assignments of the active slots.
   */
  method CollectAssignments(prefix: Prefix, available: seq<string>, transportMap: map<string, string>,
                            slots: seq<SlotInput>)
    returns (driverSelections: map<int, string>, assignments: seq<Assignment>)
    requires |slots| == SlotCount
    ensures driverSelections == Selections(available, slots, |slots|)
    ensures assignments == Assignments(prefix, transportMap, available, slots, |slots|)
    ensures |assignments| <= SlotCount
  {
    driverSelections := map[];
    assignments := [];
    for i := 1 to |slots| + 1
      invariant driverSelections == Selections(available, slots, i - 1)
      invariant assignments == Assignments(prefix, transportMap, available, slots, i - 1)
      invariant |assignments| <= i - 1
    {
      driverSelections, assignments := DrawSlot(prefix, available, transportMap, slots, i, driverSelections, assignments);
    }
  }

  /** One pass of the slot loop: slot `i` offers its options, takes its driver and, if active, adds its assignment. */
  method DrawSlot(prefix: Prefix, available: seq<string>, transportMap: map<string, string>,
                  slots: seq<SlotInput>, i: nat, driverSelections: map<int, string>, assignments: seq<Assignment>)
    returns (selectionsAfter: map<int, string>, assignmentsAfter: seq<Assignment>)
    requires 1 <= i <= |slots|
    requires driverSelections == Selections(available, slots, i - 1)
    requires assignments == Assignments(prefix, transportMap, available, slots, i - 1)
    ensures selectionsAfter == Selections(available, slots, i)
    ensures assignmentsAfter == Assignments(prefix, transportMap, available, slots, i)
    ensures |assignmentsAfter| <= |assignments| + 1
  {
    var courseNumber := slots[i - 1].courseNumber;
    var others := OthersSelected(driverSelections, i);
    var current := slots[i - 1].storedDriver;
    var options := SlotOptions(available, others, current);
    var driver := Pick(options, current);
    selectionsAfter := driverSelections[i := driver];
    assignmentsAfter := assignments;
    StripSpec(courseNumber);
    StripSpec(driver);
    if Strip(courseNumber) != "" && Strip(driver) != "" {
      var fullCourse := prefix.Label() + Strip(courseNumber);
      assignmentsAfter := assignments + [Assignment(fullCourse, Strip(driver), Lookup(transportMap, Strip(driver)))];
    }
  }

  /** Later slots never change what an earlier slot chose. */
  lemma {:induction false} SelectionsStable(available: seq<string>, slots: seq<SlotInput>, j: nat, n: nat)
    requires 1 <= j <= n <= |slots|
    ensures Selections(available, slots, n)[j] == Choice(available, slots, j)
    decreases n
  {
    if j < n {
      SelectionsStable(available, slots, j, n - 1);
    }
  }

  /** Every slot's driver is one of the options it offers: the empty choice or a roster driver. */
  lemma ChoiceOffered(available: seq<string>, slots: seq<SlotInput>, i: nat)
    requires 1 <= i <= |slots|
    ensures Choice(available, slots, i) in OptionsAt(available, slots, i)
    ensures Choice(available, slots, i) == "" || Choice(available, slots, i) in available
  {
    var options := OptionsAt(available, slots, i);
    var d := Choice(available, slots, i);
    SlotOptionsShape(available, OthersSelected(Selections(available, slots, i - 1), i), slots[i - 1].storedDriver);
    if d != "" {
      assert d == options[0] || d in options[1..] by {
        var k :| 0 <= k < |options| && options[k] == d;
        if k > 0 { assert options[1..][k - 1] == d; }
      }
    }
  }

  /**
   * A driver chosen by an earlier slot `j` is not offered to slot `i`,
   * unless it is slot `i`'s own stored choice.
   */
  lemma EarlierChoiceExcluded(available: seq<string>, slots: seq<SlotInput>, j: nat, i: nat)
    requires 1 <= j < i <= |slots|
    requires Choice(available, slots, j) != ""
    requires Choice(available, slots, j) != slots[i - 1].storedDriver
    ensures Choice(available, slots, j) !in OptionsAt(available, slots, i)
  {
    var d := Choice(available, slots, j);
    var prev := Selections(available, slots, i - 1);
    SelectionsStable(available, slots, j, i - 1);
    assert d in OthersSelected(prev, i);
    SlotOptionsShape(available, OthersSelected(prev, i), slots[i - 1].storedDriver);
    var options := OptionsAt(available, slots, i);
    assert options == [options[0]] + options[1..];
  }

  /**
   * The exclusion never takes a stored choice away: a slot keeps its stored
   * driver whenever that driver is on the roster (or is the empty choice),
   * whatever the other slots hold.
   */
  lemma StoredChoiceKept(available: seq<string>, slots: seq<SlotInput>, i: nat)
    requires 1 <= i <= |slots|
    requires slots[i - 1].storedDriver == "" || slots[i - 1].storedDriver in available
    ensures Choice(available, slots, i) == slots[i - 1].storedDriver
  {
    var options := OptionsAt(available, slots, i);
    var stored := slots[i - 1].storedDriver;
    SlotOptionsShape(available, OthersSelected(Selections(available, slots, i - 1), i), stored);
    if stored != "" {
      assert stored in options[1..];
    }
  }

  /**
   * The exclusion only looks at earlier slots, so it does not make drivers
   * mutually exclusive: two slots storing the same roster driver both keep it.
   */
  lemma SameDriverInTwoSlots(available: seq<string>, slots: seq<SlotInput>, j: nat, i: nat)
    requires 1 <= j < i <= |slots|
    requires slots[j - 1].storedDriver == slots[i - 1].storedDriver
    requires slots[j - 1].storedDriver in available
    ensures Choice(available, slots, j) == Choice(available, slots, i) == slots[i - 1].storedDriver
  {
    StoredChoiceKept(available, slots, j);
    StoredChoiceKept(available, slots, i);
  }

  lemma {:induction false} ActiveFlagsSpec(available: seq<string>, slots: seq<SlotInput>, n: nat)
    requires n <= |slots|
    ensures forall k :: 1 <= k <= n ==> ActiveFlags(available, slots, n)[k - 1] == SlotActive(available, slots, k)
    decreases n
  {
    if n > 0 {
      ActiveFlagsSpec(available, slots, n - 1);
      SnocIndex(ActiveFlags(available, slots, n - 1), SlotActive(available, slots, n), ActiveFlags(available, slots, n));
    }
  }

  /** A sequence with one element appended keeps the earlier elements in place. */
  lemma SnocIndex<T>(prev: seq<T>, x: T, s: seq<T>)
    requires s == prev + [x]
    ensures |s| == |prev| + 1 && s[|prev|] == x
    ensures forall i :: 0 <= i < |prev| ==> s[i] == prev[i]
  {
  }

  lemma {:induction false} SetPositionsSpec(flags: seq<bool>)
    ensures forall t :: 0 <= t < |SetPositions(flags)| ==>
      1 <= SetPositions(flags)[t] <= |flags| && flags[SetPositions(flags)[t] - 1]
    ensures forall t, u :: 0 <= t < u < |SetPositions(flags)| ==> SetPositions(flags)[t] < SetPositions(flags)[u]
    ensures forall k :: 1 <= k <= |flags| && flags[k - 1] ==> k in SetPositions(flags)
    decreases |flags|
  {
    if flags != [] {
      var front := flags[..|flags| - 1];
      SetPositionsSpec(front);
      PositionsStep(flags, SetPositions(front), SetPositions(flags));
    }
  }

  /** The step of `SetPositionsSpec`: one more flag keeps the positions valid, increasing and complete. */
  lemma PositionsStep(flags: seq<bool>, pf: seq<nat>, ps: seq<nat>)
    requires flags != []
    requires forall t :: 0 <= t < |pf| ==> 1 <= pf[t] <= |flags| - 1 && flags[..|flags| - 1][pf[t] - 1]
    requires forall t, u :: 0 <= t < u < |pf| ==> pf[t] < pf[u]
    requires forall k :: 1 <= k <= |flags| - 1 && flags[..|flags| - 1][k - 1] ==> k in pf
    requires ps == pf + if flags[|flags| - 1] then [|flags|] else []
    ensures forall t :: 0 <= t < |ps| ==> 1 <= ps[t] <= |flags| && flags[ps[t] - 1]
    ensures forall t, u :: 0 <= t < u < |ps| ==> ps[t] < ps[u]
    ensures forall k :: 1 <= k <= |flags| && flags[k - 1] ==> k in ps
  {
    forall k | 1 <= k <= |flags| && flags[k - 1] ensures k in ps {
      if k < |flags| {
        assert flags[..|flags| - 1][k - 1] == flags[k - 1];
      }
    }
  }

  /** The active slots are listed in increasing order, and a slot is listed exactly when it is active. */
  lemma ActiveSlotsSpec(available: seq<string>, slots: seq<SlotInput>, n: nat)
    requires n <= |slots|
    ensures var ks := ActiveSlots(available, slots, n);
      && (forall t :: 0 <= t < |ks| ==> 1 <= ks[t] <= n && SlotActive(available, slots, ks[t]))
      && (forall t, u :: 0 <= t < u < |ks| ==> ks[t] < ks[u])
      && (forall k :: 1 <= k <= n && SlotActive(available, slots, k) ==> k in ks)
  {
    var flags := ActiveFlags(available, slots, n);
    var ks := SetPositions(flags);
    ActiveFlagsSpec(available, slots, n);
    SetPositionsSpec(flags);
    forall t | 0 <= t < |ks| ensures SlotActive(available, slots, ks[t]) {
      assert flags[ks[t] - 1];
    }
    forall k | 1 <= k <= n && SlotActive(available, slots, k) ensures k in ks {
      assert flags[k - 1];
    }
  }

  /**
   * The assignments are those of the active slots, one each, in slot
   * order: the t-th assignment is the one the t-th active slot makes.
   */
  lemma {:induction false} AssignmentsFromActiveSlots(prefix: Prefix, transportMap: map<string, string>,
                                                     available: seq<string>, slots: seq<SlotInput>, n: nat)
    requires n <= |slots|
    ensures var made, ks := Assignments(prefix, transportMap, available, slots, n), ActiveSlots(available, slots, n);
      && |made| == |ks|
      && forall t :: 0 <= t < |made| ==> 1 <= ks[t] <= |slots| && made[t] == SlotAssignment(prefix, transportMap, available, slots, ks[t])
    decreases n
  {
    if n > 0 {
      AssignmentsFromActiveSlots(prefix, transportMap, available, slots, n - 1);
      var flags := ActiveFlags(available, slots, n);
      assert flags[..n - 1] == ActiveFlags(available, slots, n - 1);
      assert flags[n - 1] == SlotActive(available, slots, n);
      assert ActiveSlots(available, slots, n) ==
        ActiveSlots(available, slots, n - 1) + if flags[n - 1] then [n] else [];
    }
  }
}
