/**
 * The part of the two plotting routines that is not drawing: the check that
 * the table holds the columns a chart needs, and the choice of the series the
 * chart is drawn from. Drawing, colour maps and image files are not modelled.
 */
module HrPlots {
  import opened Wrappers
  import opened MesaHistory

  /** The columns both charts need, in the order the HR routine checks them. */
  const RequiredColumns: seq<string> := ["log_Teff", "log_L", "star_age"]

  /** The optional column of the radius panel. */
  const RadiusColumn: string := "log_R"

  /** Every one of `RequiredColumns` is a key of the table. */
  predicate HasRequired<V>(d: map<string, seq<V>>)
  {
    RequiredColumns[0] in d && RequiredColumns[1] in d && RequiredColumns[2] in d
  }

  /** Every required series holds at least one value, so its minimum and maximum exist. */
  predicate SeriesNonEmpty<V>(d: map<string, seq<V>>)
    requires HasRequired(d)
  {
    d[RequiredColumns[0]] != [] && d[RequiredColumns[1]] != [] && d[RequiredColumns[2]] != []
  }

  /**
   * Why the HR routine produces no chart: a required column is absent (it
   * reports this and returns), or a required series is empty (the range report
   * calls `min` on it, which raises `ValueError`).
   */
  datatype HrError = MissingColumn(column: string) | EmptySeries(column: string)

  /** The series of the HR scatter plot: temperature (x, reversed axis), luminosity (y), age (colour). */
  datatype HrDiagram<V> = HrDiagram(logTeff: seq<V>, logL: seq<V>, age: seq<V>)

  /** The series of the 2x2 summary figure; the radius panel is drawn only when `logR` is present. */
  datatype Summary<V> = Summary(logTeff: seq<V>, logL: seq<V>, age: seq<V>, logR: Option<seq<V>>)

  /** The loop over the required columns: the first one missing from the table, if any. */
  method FirstMissingColumn<V>(d: map<string, seq<V>>) returns (missing: Option<string>)
    ensures missing.None? <==> HasRequired(d)
    ensures missing.Some? ==>
      exists i :: 0 <= i < |RequiredColumns| && RequiredColumns[i] == missing.value
        && missing.value !in d
        && forall k :: 0 <= k < i ==> RequiredColumns[k] in d
  {
    for i := 0 to |RequiredColumns|
      invariant forall k :: 0 <= k < i ==> RequiredColumns[k] in d
    {
      if RequiredColumns[i] !in d {
        return Some(RequiredColumns[i]);
      }
    }
    assert RequiredColumns[0] in d && RequiredColumns[1] in d && RequiredColumns[2] in d;
    return None;
  }

  /**
   * `plot_simple_hr_diagram`: fails, naming the first missing column, unless
   * all required columns are present; then the range report takes the minimum
   * of each series in turn, failing on the first empty one; otherwise plots
   * the three series.
   */
  method PlotSimpleHrDiagram<V>(d: map<string, seq<V>>) returns (r: Result<HrDiagram<V>, HrError>)
    ensures (r.Failure? && r.error.MissingColumn?) <==> !HasRequired(d)
    ensures r.Failure? && r.error.MissingColumn? ==>
      exists i :: 0 <= i < |RequiredColumns| && RequiredColumns[i] == r.error.column
        && r.error.column !in d
        && forall k :: 0 <= k < i ==> RequiredColumns[k] in d
    ensures (r.Failure? && r.error.EmptySeries?) <==> HasRequired(d) && !SeriesNonEmpty(d)
    ensures r.Failure? && r.error.EmptySeries? ==>
      exists i :: 0 <= i < |RequiredColumns| && RequiredColumns[i] == r.error.column
        && r.error.column in d && d[r.error.column] == []
        && forall k :: 0 <= k < i ==> RequiredColumns[k] in d && d[RequiredColumns[k]] != []
    ensures r.Success? <==> HasRequired(d) && SeriesNonEmpty(d)
    ensures r.Success? ==>
      && "log_Teff" in d && "log_L" in d && "star_age" in d
      && r.value == HrDiagram(d["log_Teff"], d["log_L"], d["star_age"])
  {
    var missing := FirstMissingColumn(d);
    if missing.Some? {
      return Failure(MissingColumn(missing.value));
    }
    var logTeff, logL, age := d["log_Teff"], d["log_L"], d["star_age"];
    if logTeff == [] {
      return Failure(EmptySeries("log_Teff"));
    }
    if logL == [] {
      assert RequiredColumns[1] == "log_L";
      return Failure(EmptySeries("log_L"));
    }
    if age == [] {
      assert RequiredColumns[2] == "star_age";
      return Failure(EmptySeries("star_age"));
    }
    r := Success(HrDiagram(logTeff, logL, age));
  }

  /**
   * `plot_multiple_plots`: nothing unless all required columns are present;
   * otherwise the three series, plus the radius series when the table has one.
   */
  function PlotMultiplePlots<V>(d: map<string, seq<V>>): (r: Option<Summary<V>>)
    ensures r.Some? <==> HasRequired(d)
    ensures r.Some? ==> (r.value.logR.Some? <==> RadiusColumn in d)
    ensures r.Some? ==> r.value.logTeff == d["log_Teff"] && r.value.logL == d["log_L"] && r.value.age == d["star_age"]
    ensures r.Some? && RadiusColumn in d ==> r.value.logR == Some(d[RadiusColumn])
  {
    if forall c | c in RequiredColumns :: c in d then
      assert RequiredColumns[0] in d && RequiredColumns[1] in d && RequiredColumns[2] in d;
      var radius := if RadiusColumn in d then Some(d[RadiusColumn]) else None;
      Some(Summary(d["log_Teff"], d["log_L"], d["star_age"], radius))
    else
      None
  }

  /** A name is a key of the dictionary exactly when it is one of the header names. */
  lemma KeyIffHeaderName(names: seq<string>, c: string)
    ensures c in (set i | 0 <= i < |names| :: names[i]) <==> c in names
  {
    if c in names {
      var i :| 0 <= i < |names| && names[i] == c;
    }
  }

  /**
   * On any table the reader returns, the charts' guard passes exactly when
   * the header names all three required columns, and then the three series
   * have the same, non-zero length (one entry per accepted row), so the HR
   * routine never fails on an empty series.
   */
  lemma ReadTableFeedsPlots<V>(lines: seq<string>, parseNum: string -> Option<V>, t: Table<V>)
    requires Read(lines, parseNum) == Success(t)
    ensures HasRequired(t.columns) <==> "log_Teff" in t.names && "log_L" in t.names && "star_age" in t.names
    ensures HasRequired(t.columns) ==>
      && |t.columns["log_Teff"]| == |t.columns["log_L"]| == |t.columns["star_age"]|
      && SeriesNonEmpty(t.columns)
  {
    ReadKeys(lines, parseNum, t);
    KeyIffHeaderName(t.names, "log_Teff");
    KeyIffHeaderName(t.names, "log_L");
    KeyIffHeaderName(t.names, "star_age");
  }
}
