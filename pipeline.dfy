/** The step as the script runs it: the filtered frame is a mutable object,
    and `hotencoding.py` line 28 adds the `Cumple_Regla` column to it in place. */
module Pipeline {
  import opened Frame
  import opened Lipinski

  /** The filtered data frame `df_filtered`: column labels and one array
      slot per row. */
  class DataFrame {
    var columns: seq<string>
    const rows: array<Row>

    constructor (columns: seq<string>, rows: seq<Row>)
      ensures this.columns == columns && this.rows[..] == rows && fresh(this.rows)
    {
      this.columns := columns;
      this.rows := new Row[|rows|](k requires 0 <= k < |rows| => rows[k]);
    }

    /** `df_filtered["Cumple_Regla"] = ...`: every row gets its flag, the
        column list gets the flag column, and nothing else changes. */
    method AssignComplianceFlag()
      modifies this`columns, rows
      ensures columns == WithColumn(old(columns), Flag)
      ensures rows[..] == FlagRows(old(rows[..]))
    {
      var i := 0;
      while i < rows.Length
        invariant 0 <= i <= rows.Length && columns == old(columns)
        invariant forall k :: 0 <= k < i ==> rows[k] == FlagRow(old(rows[k]))
        invariant forall k :: i <= k < rows.Length ==> rows[k] == old(rows[k])
      {
        rows[i] := FlagRow(rows[i]);
        i := i + 1;
      }
      assert forall k :: 0 <= k < rows.Length ==> rows[..][k] == FlagRows(old(rows[..]))[k];
      columns := WithColumn(columns, Flag);
    }

    /** `df_filtered["Cumple_Regla"].sum()` (`hotencoding.py` line 31). Once
        every row is flagged, the area lies between 0 and the number of rows. */
    function Area(): (area: int)
      reads this, rows
      ensures (forall k :: 0 <= k < rows.Length ==> 0 <= FlagValue(rows[k]) <= 1) ==> 0 <= area <= rows.Length
    {
      SumFlags(rows[..])
    }
  }

  /** `hotencoding.py` lines 19-31 run on a frame object; the outcome is the one `Process`
      specifies. */
  method Run(t: Table) returns (r: Result<Output, Error>)
    ensures r == Process(t)
  {
    if !HasExpectedColumns(t.columns) {
      return Failure(MissingColumns);
    }
    if ColumnHasText(t.rows, Donors) {
      return Failure(NotNumeric(Donors));
    }
    if ColumnHasText(t.rows, Acceptors) {
      return Failure(NotNumeric(Acceptors));
    }
    var df := new DataFrame(t.columns, KeepInRange(t.rows));
    df.AssignComplianceFlag();
    r := Success(Output(df.columns, df.rows[..], df.Area()));
  }
}
