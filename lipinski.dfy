/** The row-processing step of the Lipinski hydrogen-bond screen: check that
    the two descriptor columns exist, keep the rows whose donor and acceptor
    counts lie in the plotted range, flag each kept row against the strict
    rule, and count the flagged rows. */
module Lipinski {
  import opened Frame

  const Donors: string := "Donantes_H"
  const Acceptors: string := "Aceptores_H"
  const Flag: string := "Cumple_Regla"
  const ExpectedColumns: seq<string> := [Donors, Acceptors]

  /** Upper ends of the kept ranges; the same numbers are the strict rule's bounds. */
  const DonorLimit: real := 5.0
  const AcceptorLimit: real := 10.0

  datatype Error =
    | MissingColumns          // a required column is absent: the pipeline halts before filtering
    | NotNumeric(column: string)  // pandas raises a type error comparing text with a number

  /** What the step produces: the filtered frame's columns and rows, and the
      number of rows that meet the rule. */
  datatype Output = Output(columns: seq<string>, rows: seq<Row>, area: int)

  /** The schema check: every expected column is a column of the frame. */
  function HasExpectedColumns(columns: seq<string>): (ok: bool)
    ensures ok <==> Donors in columns && Acceptors in columns
  {
    forall c <- ExpectedColumns :: c in columns
  }

  /** The range mask: `0 <= Donantes_H <= 5` and `0 <= Aceptores_H <= 10`.
      A NaN cell fails every comparison, so its row is dropped. */
  function InRange(row: Row): (kept: bool)
    ensures Get(row, Donors).Blank? || Get(row, Acceptors).Blank? ==> !kept
    ensures kept ==> Numeric(Get(row, Donors)).Some? && Numeric(Get(row, Acceptors)).Some?
    ensures kept ==> 0.0 <= Numeric(Get(row, Donors)).value <= DonorLimit
    ensures kept ==> 0.0 <= Numeric(Get(row, Acceptors)).value <= AcceptorLimit
  {
    match (Numeric(Get(row, Donors)), Numeric(Get(row, Acceptors)))
    case (Some(d), Some(a)) => 0.0 <= d <= DonorLimit && 0.0 <= a <= AcceptorLimit
    case _ => false
  }

  /** The strict rule: `Donantes_H < 5` and `Aceptores_H < 10`. */
  function MeetsRule(row: Row): (meets: bool)
    ensures meets ==> Numeric(Get(row, Donors)).Some? && Numeric(Get(row, Acceptors)).Some?
    ensures meets && 0.0 <= Numeric(Get(row, Donors)).value && 0.0 <= Numeric(Get(row, Acceptors)).value
      ==> InRange(row)
    ensures Numeric(Get(row, Donors)) == Some(DonorLimit) ==> !meets
    ensures Numeric(Get(row, Acceptors)) == Some(AcceptorLimit) ==> !meets
  {
    match (Numeric(Get(row, Donors)), Numeric(Get(row, Acceptors)))
    case (Some(d), Some(a)) => d < DonorLimit && a < AcceptorLimit
    case _ => false
  }

  /** What the whole step counts on an input row: kept by the mask and
      meeting the rule, that is `0 <= d < 5` and `0 <= a < 10`. */
  predicate Compliant(row: Row)
  {
    InRange(row) && MeetsRule(row)
  }

  /** The rows the mask keeps, in their original order. */
  function KeepInRange(rows: seq<Row>): (kept: seq<Row>)
    ensures |kept| <= |rows|
    ensures forall k :: 0 <= k < |kept| ==> InRange(kept[k])
  {
    if rows == [] then []
    else
      var n := |rows| - 1;
      assert rows == rows[..n] + [rows[n]];
      KeepInRange(rows[..n]) + if InRange(rows[n]) then [rows[n]] else []
  }

  /** The positions at which the mask is true, in increasing order. */
  function MaskIndices(rows: seq<Row>): (idx: seq<nat>)
    ensures forall k :: 0 <= k < |idx| ==> idx[k] < |rows|
    ensures forall j, k :: 0 <= j < k < |idx| ==> idx[j] < idx[k]
    ensures forall i :: 0 <= i < |rows| ==> (i in idx <==> InRange(rows[i]))
  {
    if rows == [] then []
    else
      var n := |rows| - 1;
      MaskIndices(rows[..n]) + if InRange(rows[n]) then [n] else []
  }

  /** The kept rows are exactly the input rows at the mask's positions. */
  lemma {:induction false} KeepInRangeFollowsMask(rows: seq<Row>)
    ensures |KeepInRange(rows)| == |MaskIndices(rows)|
    ensures forall k :: 0 <= k < |MaskIndices(rows)| ==> KeepInRange(rows)[k] == rows[MaskIndices(rows)[k]]
  {
    if rows != [] {
      var n := |rows| - 1;
      var init := rows[..n];
      KeepInRangeFollowsMask(init);
      var kept, idx := KeepInRange(init), MaskIndices(init);
      assert forall m :: 0 <= m < |idx| ==> kept[m] == rows[idx[m]];
    }
  }

  /** `hotencoding.py` line 28 on one row: the row with `Cumple_Regla` set to 1 when it meets
      the rule and to 0 otherwise. */
  function FlagRow(row: Row): (flagged: Row)
    ensures flagged.Keys == row.Keys + {Flag}
    ensures forall c :: c != Flag ==> Get(flagged, c) == Get(row, c)
    ensures flagged[Flag] == Int(0) || flagged[Flag] == Int(1)
    ensures flagged[Flag] == Int(1) <==> MeetsRule(row)
  {
    row[Flag := Int(if MeetsRule(row) then 1 else 0)]
  }

  /** `hotencoding.py` line 28 on the whole filtered frame: one row per
      row, each carrying its own flag and otherwise unchanged. */
  function FlagRows(rows: seq<Row>): (flagged: seq<Row>)
    ensures |flagged| == |rows|
    ensures forall k :: 0 <= k < |rows| ==>
      (Get(flagged[k], Flag) == Int(1) <==> MeetsRule(rows[k])) &&
      (Get(flagged[k], Flag) == Int(0) <==> !MeetsRule(rows[k]))
    ensures forall k, c :: 0 <= k < |rows| && c != Flag ==> Get(flagged[k], c) == Get(rows[k], c)
  {
    seq(|rows|, k requires 0 <= k < |rows| => FlagRow(rows[k]))
  }

  /** The value a row contributes to the sum of the flag column. */
  function FlagValue(row: Row): int
  {
    match Get(row, Flag)
    case Int(i) => i
    case _ => 0
  }

  /** `hotencoding.py` line 31: the sum of the `Cumple_Regla` column. When
      every flag is 0 or 1, the sum lies between 0 and the number of rows. */
  function SumFlags(rows: seq<Row>): (sum: int)
    ensures (forall k :: 0 <= k < |rows| ==> 0 <= FlagValue(rows[k]) <= 1) ==> 0 <= sum <= |rows|
  {
    if rows == [] then 0 else SumFlags(rows[..|rows| - 1]) + FlagValue(rows[|rows| - 1])
  }

  /** `hotencoding.py` lines 19-31: the schema check, then the range filter, the flag column
      and its sum. A text cell in either required column makes the first
      comparison on that column raise; the comparisons on `Donantes_H` come
      first on line 24. */
  function Process(t: Table): (r: Result<Output, Error>)
    ensures r.Failure? ==>
      r.error in {MissingColumns, NotNumeric(Donors), NotNumeric(Acceptors)}
    ensures r.Success? ==> HasExpectedColumns(t.columns) && Flag in r.value.columns
    ensures r.Success? ==> |r.value.rows| <= |t.rows|
  {
    if !HasExpectedColumns(t.columns) then Failure(MissingColumns)
    else if ColumnHasText(t.rows, Donors) then Failure(NotNumeric(Donors))
    else if ColumnHasText(t.rows, Acceptors) then Failure(NotNumeric(Acceptors))
    else
      var flagged := FlagRows(KeepInRange(t.rows));
      Success(Output(WithColumn(t.columns, Flag), flagged, SumFlags(flagged)))
  }

  // ---------------------------------------------------------------------
  // Properties of the step

  /** A missing required column, and only that, gives the schema error. */
  lemma MissingColumnHalts(t: Table)
    ensures Process(t) == Failure(MissingColumns) <==> Donors !in t.columns || Acceptors !in t.columns
  {
  }

  /** With both columns present, the step fails exactly when one of them
      holds text, and then names the first such column. */
  lemma TextCellFails(t: Table)
    requires Donors in t.columns && Acceptors in t.columns
    ensures Process(t).Failure? <==> ColumnHasText(t.rows, Donors) || ColumnHasText(t.rows, Acceptors)
    ensures Process(t).Failure? ==>
      Process(t).error == NotNumeric(if ColumnHasText(t.rows, Donors) then Donors else Acceptors)
  {
  }

  /** The output rows are the in-range input rows, each at the mask position
      it came from, in the original order, each changed only by the flag; the
      output columns are the input columns with `Cumple_Regla` added. */
  lemma ProcessKeepsInRangeRowsInOrder(t: Table)
    requires Process(t).Success?
    ensures var out, idx := Process(t).value, MaskIndices(t.rows);
      && out.columns == WithColumn(t.columns, Flag)
      && |out.rows| == |idx| <= |t.rows|
      && (forall k :: 0 <= k < |idx| ==> idx[k] < |t.rows| && out.rows[k] == FlagRow(t.rows[idx[k]]))
      && (forall j, k :: 0 <= j < k < |idx| ==> idx[j] < idx[k])
      && (forall i :: 0 <= i < |t.rows| ==> (i in idx <==> InRange(t.rows[i])))
  {
    KeepInRangeFollowsMask(t.rows);
  }

  /** Every output row is in range, and its flag is 1 exactly when its counts
      are strictly below 5 and 10, and 0 otherwise. */
  lemma ProcessFlagsEachRow(t: Table)
    requires Process(t).Success?
    ensures var out := Process(t).value;
      forall k :: 0 <= k < |out.rows| ==>
        && InRange(out.rows[k])
        && Get(out.rows[k], Flag) == (if MeetsRule(out.rows[k]) then Int(1) else Int(0))
  {
    var out := Process(t).value;
    var kept := KeepInRange(t.rows);
    forall k | 0 <= k < |out.rows|
      ensures InRange(out.rows[k])
      ensures Get(out.rows[k], Flag) == (if MeetsRule(out.rows[k]) then Int(1) else Int(0))
    {
      assert out.rows[k] == FlagRow(kept[k]);
      assert InRange(kept[k]);
    }
  }

  /** A row kept at the upper end of a range (5 donors or 10 acceptors) is
      in the output, flagged 0: the range is closed while the rule is strict. */
  lemma BoundaryRowFlaggedZero(t: Table, i: nat) returns (k: nat)
    requires Process(t).Success?
    requires i < |t.rows| && InRange(t.rows[i])
    requires Numeric(Get(t.rows[i], Donors)) == Some(DonorLimit)
          || Numeric(Get(t.rows[i], Acceptors)) == Some(AcceptorLimit)
    ensures k < |Process(t).value.rows|
    ensures Process(t).value.rows[k] == FlagRow(t.rows[i])
    ensures Process(t).value.rows[k][Flag] == Int(0)
  {
    ProcessKeepsInRangeRowsInOrder(t);
    var idx := MaskIndices(t.rows);
    var j :| 0 <= j < |idx| && idx[j] == i;
    k := j;
  }

  /** The positions of the input rows that the step counts. */
  ghost function CompliantPositions(rows: seq<Row>): set<nat>
  {
    set i: nat | i < |rows| && Compliant(rows[i])
  }

  lemma FlagRowsAppend(a: seq<Row>, b: seq<Row>)
    ensures FlagRows(a + b) == FlagRows(a) + FlagRows(b)
  {
    assert forall k :: 0 <= k < |a + b| ==> FlagRows(a + b)[k] == (FlagRows(a) + FlagRows(b))[k];
  }

  /** Adding one row to the end of the frame adds its flag to the sum. */
  lemma SumFlagsSnoc(rows: seq<Row>, row: Row)
    ensures SumFlags(rows + [row]) == SumFlags(rows) + FlagValue(row)
  {
    assert (rows + [row])[..|rows|] == rows;
  }

  /** A new last row adds its position to the counted positions exactly when
      it is compliant. */
  lemma CompliantPositionsSnoc(rows: seq<Row>)
    requires rows != []
    ensures var n := |rows| - 1;
      CompliantPositions(rows) ==
        CompliantPositions(rows[..n]) + if Compliant(rows[n]) then {n} else {}
  {
    var n := |rows| - 1;
    assert forall m :: 0 <= m < n ==> rows[..n][m] == rows[m];
  }

  lemma {:induction false} SumCountsCompliant(rows: seq<Row>)
    ensures SumFlags(FlagRows(KeepInRange(rows))) == |CompliantPositions(rows)|
  {
    if rows != [] {
      var n := |rows| - 1;
      var init, last := rows[..n], rows[n];
      SumCountsCompliant(init);
      var tail := if InRange(last) then [last] else [];
      assert KeepInRange(rows) == KeepInRange(init) + tail;
      FlagRowsAppend(KeepInRange(init), tail);
      var before := FlagRows(KeepInRange(init));
      if InRange(last) {
        assert FlagRows(tail) == [FlagRow(last)];
        SumFlagsSnoc(before, FlagRow(last));
      } else {
        assert FlagRows(tail) == [];
        assert before + [] == before;
      }
      CompliantPositionsSnoc(rows);
      assert n !in CompliantPositions(init);
    }
  }

  /** Each flagged row adds 0 or 1 to the sum. */
  lemma {:induction false} SumFlagsBounded(rows: seq<Row>)
    ensures 0 <= SumFlags(FlagRows(rows)) <= |rows|
  {
    if rows != [] {
      var n := |rows| - 1;
      assert rows == rows[..n] + [rows[n]];
      SumFlagsBounded(rows[..n]);
      FlagRowsAppend(rows[..n], [rows[n]]);
      assert FlagRows([rows[n]]) == [FlagRow(rows[n])];
      SumFlagsSnoc(FlagRows(rows[..n]), FlagRow(rows[n]));
    }
  }

  /** The reported area is the number of input rows with `0 <= Donantes_H < 5`
      and `0 <= Aceptores_H < 10`, and lies between 0 and the number of
      retained rows. */
  lemma ProcessAreaCountsCompliantRows(t: Table)
    requires Process(t).Success?
    ensures var out := Process(t).value;
      && out.area == |CompliantPositions(t.rows)|
      && 0 <= out.area <= |out.rows| <= |t.rows|
  {
    SumCountsCompliant(t.rows);
    SumFlagsBounded(KeepInRange(t.rows));
  }

  /** An empty frame with the right columns gives no rows and an area of 0. */
  lemma EmptyFrame(columns: seq<string>)
    requires Donors in columns && Acceptors in columns
    ensures Process(Table(columns, [])) == Success(Output(WithColumn(columns, Flag), [], 0))
  {
  }

  /** Four rows (3, 4), (5, 10), (6, 2), (-1, 3): the first two are kept, the
      first flagged 1 and the second 0, and the area is 1. */
  lemma WorkedExample()
    ensures var rows := [
        map[Donors := Int(3), Acceptors := Int(4)],
        map[Donors := Int(5), Acceptors := Int(10)],
        map[Donors := Int(6), Acceptors := Int(2)],
        map[Donors := Int(-1), Acceptors := Int(3)]];
      Process(Table([Donors, Acceptors], rows)) == Success(Output(
        [Donors, Acceptors, Flag],
        [ map[Donors := Int(3), Acceptors := Int(4), Flag := Int(1)],
          map[Donors := Int(5), Acceptors := Int(10), Flag := Int(0)]],
        1))
  {
    var r0 := map[Donors := Int(3), Acceptors := Int(4)];
    var r1 := map[Donors := Int(5), Acceptors := Int(10)];
    var r2 := map[Donors := Int(6), Acceptors := Int(2)];
    var r3 := map[Donors := Int(-1), Acceptors := Int(3)];
    var rows := [r0, r1, r2, r3];
    assert !ColumnHasText(rows, Donors) && !ColumnHasText(rows, Acceptors);
    assert rows[..3] == [r0, r1, r2] && [r0, r1, r2][..2] == [r0, r1];
    assert [r0, r1][..1] == [r0] && [r0][..0] == [];
    assert KeepInRange([r0]) == [r0];
    assert KeepInRange([r0, r1]) == [r0, r1];
    assert KeepInRange(rows) == [r0, r1];
    var f0 := map[Donors := Int(3), Acceptors := Int(4), Flag := Int(1)];
    var f1 := map[Donors := Int(5), Acceptors := Int(10), Flag := Int(0)];
    assert FlagRow(r0) == f0 && FlagRow(r1) == f1;
    assert FlagRows([r0, r1]) == [f0, f1];
    assert [f0, f1][..1] == [f0] && [f0][..0] == [];
    assert FlagValue(f0) == 1 && FlagValue(f1) == 0;
    assert SumFlags([f0]) == 1;
    assert SumFlags([f0, f1]) == 1;
    assert WithColumn([Donors, Acceptors], Flag) == [Donors, Acceptors, Flag];
  }
}
