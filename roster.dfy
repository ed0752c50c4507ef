/**
 * The driver roster: a table of (driver name, transporter ID) rows turned
 * into the name -> transporter ID map and the list of selectable drivers.
 */
module Roster {
  import opened Wrappers
  import opened Unique

  /** A roster row after header normalisation; either field may be missing. */
  datatype RosterRow = RosterRow(driverName: Option<string>, transporterId: Option<string>)

  datatype Roster = Roster(transportMap: map<string, string>, availableDrivers: seq<string>)

  /** `dropna(subset=["driver_name", "transporter_id"])` keeps a row only when both fields are present. */
  predicate Complete(row: RosterRow) {
    row.driverName.Some? && row.transporterId.Some?
  }

  /** Row `k` is complete and names driver `d`. */
  predicate RowFor(rows: seq<RosterRow>, k: int, d: string) {
    0 <= k < |rows| && Complete(rows[k]) && rows[k].driverName.value == d
  }

  /** Some complete row names driver `d`. */
  ghost predicate Listed(rows: seq<RosterRow>, d: string) {
    exists k :: RowFor(rows, k, d)
  }

  /** Row `k` is the last complete row naming `d`. */
  ghost predicate LastRowFor(rows: seq<RosterRow>, k: int, d: string) {
    RowFor(rows, k, d) && forall k' :: k < k' < |rows| ==> !RowFor(rows, k', d)
  }

  lemma ListedSnoc(rows: seq<RosterRow>, d: string)
    requires rows != []
    ensures var front, last := rows[..|rows| - 1], rows[|rows| - 1];
      Listed(rows, d) <==> Listed(front, d) || (Complete(last) && last.driverName.value == d)
  {
    var front := rows[..|rows| - 1];
    if Listed(rows, d) {
      var k :| RowFor(rows, k, d);
      if k < |front| { assert RowFor(front, k, d); }
    }
    if Listed(front, d) {
      var k :| RowFor(front, k, d);
      assert RowFor(rows, k, d);
    }
    if Complete(rows[|rows| - 1]) && rows[|rows| - 1].driverName.value == d {
      assert RowFor(rows, |rows| - 1, d);
    }
  }

  /** The driver names of the complete rows, in row order. */
  function CompleteNames(rows: seq<RosterRow>): (names: seq<string>)
    ensures forall d :: d in names <==> Listed(rows, d)
    decreases |rows|
  {
    if rows == [] then []
    else
      var front := rows[..|rows| - 1];
      var last := rows[|rows| - 1];
      var names := CompleteNames(front);
      assert forall d :: Listed(rows, d) <==> Listed(front, d) || (Complete(last) && last.driverName.value == d) by {
        forall d { ListedSnoc(rows, d); }
      }
      if Complete(last) then names + [last.driverName.value] else names
  }

  /** The positions of the complete rows, in increasing order. */
  function CompleteRows(rows: seq<RosterRow>): (ps: seq<nat>)
    ensures forall k :: 0 <= k < |ps| ==> ps[k] < |rows| && Complete(rows[ps[k]])
    ensures forall i, j :: 0 <= i < j < |ps| ==> ps[i] < ps[j]
    ensures forall p :: 0 <= p < |rows| && Complete(rows[p]) ==> p in ps
    decreases |rows|
  {
    if rows == [] then []
    else
      var front := CompleteRows(rows[..|rows| - 1]);
      if Complete(rows[|rows| - 1]) then front + [|rows| - 1] else front
  }

  /** The names come in row order: the k-th name is the driver of the k-th complete row. */
  lemma {:induction false} CompleteNamesInOrder(rows: seq<RosterRow>)
    ensures var names, ps := CompleteNames(rows), CompleteRows(rows);
      |names| == |ps| && forall k :: 0 <= k < |names| ==> Complete(rows[ps[k]]) && names[k] == rows[ps[k]].driverName.value
    decreases |rows|
  {
    if rows != [] {
      var front := rows[..|rows| - 1];
      CompleteNamesInOrder(front);
      NamesStep(rows, CompleteNames(front), CompleteRows(front), CompleteNames(rows), CompleteRows(rows));
    }
  }

  /** The step of `CompleteNamesInOrder`: one more row keeps names and positions in step. */
  lemma NamesStep(rows: seq<RosterRow>, nf: seq<string>, pf: seq<nat>, names: seq<string>, ps: seq<nat>)
    requires rows != []
    requires |nf| == |pf| && forall k :: 0 <= k < |nf| ==>
      pf[k] < |rows| - 1 && Complete(rows[..|rows| - 1][pf[k]]) && nf[k] == rows[..|rows| - 1][pf[k]].driverName.value
    requires var last := rows[|rows| - 1];
      && names == (if Complete(last) then nf + [last.driverName.value] else nf)
      && ps == (if Complete(last) then pf + [|rows| - 1] else pf)
    ensures |names| == |ps| && forall k :: 0 <= k < |names| ==>
      ps[k] < |rows| && Complete(rows[ps[k]]) && names[k] == rows[ps[k]].driverName.value
  {
    forall k | 0 <= k < |names| ensures ps[k] < |rows| && Complete(rows[ps[k]]) && names[k] == rows[ps[k]].driverName.value {
      if k < |nf| {
        assert ps[k] == pf[k] && names[k] == nf[k];
      }
    }
  }

  /** `dict(zip(names, ids))` over the complete rows: a later row overwrites an earlier one. */
  function TransportMap(rows: seq<RosterRow>): map<string, string>
    decreases |rows|
  {
    if rows == [] then map[]
    else
      var m := TransportMap(rows[..|rows| - 1]);
      var last := rows[|rows| - 1];
      if Complete(last) then m[last.driverName.value := last.transporterId.value] else m
  }

  /** Loading the roster; with no roster file both outputs are empty. */
  function LoadRoster(file: Option<seq<RosterRow>>): (r: Roster)
    ensures file.None? ==> r == Roster(map[], [])
  {
    match file
    case None => Roster(map[], [])
    case Some(rows) => Roster(TransportMap(rows), Distinct(CompleteNames(rows)))
  }

  /**
   * The map has a key exactly for the names of complete rows, and the value
   * for a name is the transporter ID of the last complete row with that name.
   */
  lemma {:induction false} LastRowWins(rows: seq<RosterRow>)
    ensures forall d :: d in TransportMap(rows) <==> Listed(rows, d)
    ensures forall d :: d in TransportMap(rows) ==>
      exists k :: LastRowFor(rows, k, d) && rows[k].transporterId.value == TransportMap(rows)[d]
    decreases |rows|
  {
    if rows != [] {
      var front := rows[..|rows| - 1];
      var last := rows[|rows| - 1];
      LastRowWins(front);
      var mf := TransportMap(front);
      var m := TransportMap(rows);
      forall d ensures d in m <==> Listed(rows, d) {
        ListedSnoc(rows, d);
      }
      forall d | d in m ensures exists k :: LastRowFor(rows, k, d) && rows[k].transporterId.value == m[d] {
        if Complete(last) && last.driverName.value == d {
          assert LastRowFor(rows, |rows| - 1, d);
        } else {
          assert m == if Complete(last) then mf[last.driverName.value := last.transporterId.value] else mf;
          assert d in mf && m[d] == mf[d];
          assert exists k :: LastRowFor(front, k, d) && front[k].transporterId.value == mf[d];
          var k :| LastRowFor(front, k, d) && front[k].transporterId.value == mf[d];
          assert forall k' :: k < k' < |front| ==> !RowFor(front, k', d);
          assert forall k' :: k < k' < |rows| - 1 ==> RowFor(rows, k', d) == RowFor(front, k', d);
          assert LastRowFor(rows, k, d);
        }
      }
    }
  }

  /**
   * The roster's outputs agree: the selectable drivers are exactly the keys
   * of the map, they are pairwise distinct, and they come in the order in
   * which each name first appears among the complete rows.
   */
  lemma RosterConsistent(file: Option<seq<RosterRow>>)
    ensures var r := LoadRoster(file);
      && (forall d :: d in r.availableDrivers <==> d in r.transportMap)
      && (forall i, j :: 0 <= i < j < |r.availableDrivers| ==> r.availableDrivers[i] != r.availableDrivers[j])
      && (file.Some? ==> var names := CompleteNames(file.value);
            forall i, j :: 0 <= i < j < |r.availableDrivers| ==>
              FirstIndex(names, r.availableDrivers[i]) < FirstIndex(names, r.availableDrivers[j]))
  {
    if file.Some? {
      var rows := file.value;
      var names := CompleteNames(rows);
      assert LoadRoster(file) == Roster(TransportMap(rows), Distinct(names));
      AvailableAreKeys(rows);
      DistinctFirstSeenOrder(names);
    }
  }

  lemma AvailableAreKeys(rows: seq<RosterRow>)
    ensures forall d :: d in Distinct(CompleteNames(rows)) <==> d in TransportMap(rows)
  {
    LastRowWins(rows);
    DistinctMembers(CompleteNames(rows));
  }

  lemma DistinctMembers(names: seq<string>)
    ensures forall d :: d in Distinct(names) <==> d in names
  {
    forall d | d in names ensures d in Distinct(names) {
      var k :| 0 <= k < |names| && names[k] == d;
    }
  }

  /** A row missing either field, wherever it stands, adds no key and no value to the map. */
  lemma {:induction false} TransportMapSkips(before: seq<RosterRow>, row: RosterRow, after: seq<RosterRow>)
    requires !Complete(row)
    ensures TransportMap(before + [row] + after) == TransportMap(before + after)
    decreases |after|
  {
    var rows, kept := before + [row] + after, before + after;
    if after == [] {
      assert rows[..|rows| - 1] == before && kept == before;
    } else {
      var front := after[..|after| - 1];
      TransportMapSkips(before, row, front);
      assert rows[..|rows| - 1] == before + [row] + front;
      assert kept[..|kept| - 1] == before + front;
      assert rows[|rows| - 1] == kept[|kept| - 1];
    }
  }

  /** A row missing either field, wherever it stands, adds no name. */
  lemma {:induction false} CompleteNamesSkips(before: seq<RosterRow>, row: RosterRow, after: seq<RosterRow>)
    requires !Complete(row)
    ensures CompleteNames(before + [row] + after) == CompleteNames(before + after)
    decreases |after|
  {
    var rows, kept := before + [row] + after, before + after;
    if after == [] {
      assert rows[..|rows| - 1] == before && kept == before;
    } else {
      var front := after[..|after| - 1];
      CompleteNamesSkips(before, row, front);
      assert rows[..|rows| - 1] == before + [row] + front;
      assert kept[..|kept| - 1] == before + front;
      assert rows[|rows| - 1] == kept[|kept| - 1];
    }
  }

  /** A row missing either field changes neither output, wherever it stands among the rows. */
  lemma IncompleteRowIgnored(before: seq<RosterRow>, row: RosterRow, after: seq<RosterRow>)
    requires !Complete(row)
    ensures LoadRoster(Some(before + [row] + after)) == LoadRoster(Some(before + after))
  {
    TransportMapSkips(before, row, after);
    CompleteNamesSkips(before, row, after);
  }
}
