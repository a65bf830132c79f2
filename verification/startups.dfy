/**
 * The loaded dataset of unicorn startups and the sidebar filter applied to it.
 * A row keeps the columns the filter and the charts read; `year` is the
 * `Year` column already derived from `Entry` (None where the date did not parse).
 */
module Startups {
  import opened Wrappers
  import opened Seqs

  datatype Row = Row(sector: string, location: string, year: Option<int>, investors: Option<string>)

  /** The three sidebar selections: two multiselect lists and the inclusive year slider. */
  datatype Selection = Selection(sectors: seq<string>, fromYear: int, toYear: int, locations: seq<string>)

  /** The `Sector` column. */
  function Sectors(rows: seq<Row>): seq<string> {
    seq(|rows|, i requires 0 <= i < |rows| => rows[i].sector)
  }

  /** The `Location` column. */
  function Locations(rows: seq<Row>): seq<string> {
    seq(|rows|, i requires 0 <= i < |rows| => rows[i].location)
  }

  /** Some row carries year `y`. */
  predicate HasYear(rows: seq<Row>, y: int) {
    exists row :: row in rows && row.year == Some(y)
  }

  /** The rows whose `Year` is present, in their order. */
  function Dated(rows: seq<Row>): (r: seq<Row>)
    ensures |r| <= |rows|
    ensures IsSubsequence(r, rows)
    ensures forall row :: row in r <==> row in rows && row.year.Some?
    ensures forall row :: Occurrences(r, row) == if row.year.Some? then Occurrences(rows, row) else 0
  {
    if rows == [] then []
    else
      assert rows == [rows[0]] + rows[1..];
      var rest := Dated(rows[1..]);
      if rows[0].year.Some? then [rows[0]] + rest else rest
  }

  /** The `Year` column, NaN included. */
  function YearColumn(rows: seq<Row>): seq<Option<int>> {
    seq(|rows|, i requires 0 <= i < |rows| => rows[i].year)
  }

  /**
   * `data["Year"].dropna()`: the present years in row order, one entry per
   * dated row, each year as often as rows carry it.
   */
  function Years(rows: seq<Row>): (r: seq<int>)
    ensures |r| == |Dated(rows)|
    ensures IsSubsequence(Somes(r), YearColumn(rows))
    ensures forall y :: Occurrences(r, y) == Occurrences(YearColumn(rows), Some(y))
    ensures forall y :: y in r <==> HasYear(rows, y)
  {
    var col := YearColumn(rows);
    YearsOfDated(rows);
    forall y | HasYear(rows, y) ensures Some(y) in col {
      var row :| row in rows && row.year == Some(y);
      var i :| 0 <= i < |rows| && rows[i] == row;
      assert col[i] == Some(y);
    }
    forall y | Some(y) in col ensures HasYear(rows, y) {
      var i :| 0 <= i < |col| && col[i] == Some(y);
      assert rows[i] in rows;
    }
    DropMissing(col)
  }

  /** Dropping the missing years leaves one year per dated row. */
  lemma {:induction false} YearsOfDated(rows: seq<Row>)
    ensures |DropMissing(YearColumn(rows))| == |Dated(rows)|
  {
    if rows != [] {
      assert YearColumn(rows)[1..] == YearColumn(rows[1..]);
      YearsOfDated(rows[1..]);
    }
  }

  /** `Series.between(lo, hi)` on the `Year` column: inclusive, and NaN is never between. */
  predicate InYears(year: Option<int>, lo: int, hi: int): (b: bool)
    ensures b ==> year.Some?
    ensures hi < lo ==> !b
    ensures year == Some(lo) || year == Some(hi) ==> lo <= hi ==> b
  {
    year.Some? && lo <= year.value <= hi
  }

  /** The boolean mask of the filter: all three conditions together. */
  predicate Keeps(sel: Selection, row: Row): (b: bool)
    ensures b ==> row.year.Some?
    ensures sel.sectors == [] || sel.locations == [] || sel.toYear < sel.fromYear ==> !b
  {
    && row.sector in sel.sectors
    && InYears(row.year, sel.fromYear, sel.toYear)
    && row.location in sel.locations
  }

  /**
   * `data[mask]`: the rows the mask keeps, in their original order. Every kept
   * row passes all three tests and every row that passes them is kept, as often
   * as it occurs.
   */
  function Filter(rows: seq<Row>, sel: Selection): (r: seq<Row>)
    ensures |r| <= |rows|
    ensures IsSubsequence(r, rows)
    ensures forall row :: row in r ==> Keeps(sel, row)
    ensures forall row :: Occurrences(r, row) == if Keeps(sel, row) then Occurrences(rows, row) else 0
  {
    if rows == [] then []
    else
      assert rows == [rows[0]] + rows[1..];
      var rest := Filter(rows[1..], sel);
      if Keeps(sel, rows[0]) then [rows[0]] + rest else rest
  }

  /** Applying the same selection to an already filtered view changes nothing. */
  lemma {:induction false} FilterIdempotent(rows: seq<Row>, sel: Selection)
    ensures Filter(Filter(rows, sel), sel) == Filter(rows, sel)
  {
    if rows != [] {
      FilterIdempotent(rows[1..], sel);
      if Keeps(sel, rows[0]) {
        var f := Filter(rows, sel);
        assert f[0] == rows[0] && f[1..] == Filter(rows[1..], sel);
      }
    }
  }

  /**
   * A row whose `Entry` did not parse has no year, so whatever range is chosen
   * it is never kept: dropping the undated rows first gives the same view.
   */
  lemma {:induction false} UndatedRowsNeverKept(rows: seq<Row>, sel: Selection)
    ensures Filter(rows, sel) == Filter(Dated(rows), sel)
  {
    if rows != [] {
      var tail := rows[1..];
      UndatedRowsNeverKept(tail, sel);
      var d := Dated(rows);
      if rows[0].year.Some? {
        assert d == [rows[0]] + Dated(tail);
        assert d[1..] == Dated(tail);
        assert Filter(d, sel) == (if Keeps(sel, rows[0]) then [rows[0]] else []) + Filter(Dated(tail), sel);
      } else {
        assert d == Dated(tail);
        assert Filter(rows, sel) == Filter(tail, sel);
      }
    }
  }

  /** Deselecting every sector, or every location, empties the view. */
  lemma EmptySelectionKeepsNothing(rows: seq<Row>, sel: Selection)
    requires sel.sectors == [] || sel.locations == []
    ensures Filter(rows, sel) == []
  {
  }

  /**
   * The initial state of the sidebar: every sector and every location in the
   * data, and the slider spanning the smallest to the largest present year.
   * `int(data["Year"].min())` raises when no year is present; that is `None`.
   */
  function DefaultSelection(rows: seq<Row>): (r: Option<Selection>)
    ensures r.None? <==> forall row :: row in rows ==> row.year.None?
    ensures r.Some? ==> forall row :: row in rows ==>
      row.sector in r.value.sectors && row.location in r.value.locations
    ensures r.Some? ==> forall row :: row in rows && row.year.Some? ==>
      r.value.fromYear <= row.year.value <= r.value.toYear
    ensures r.Some? ==> forall s :: s in r.value.sectors ==> s in Sectors(rows)
    ensures r.Some? ==> forall l :: l in r.value.locations ==> l in Locations(rows)
    ensures r.Some? ==> HasYear(rows, r.value.fromYear) && HasYear(rows, r.value.toYear)
  {
    var years := Years(rows);
    if years == [] then
      None
    else
      var sectors := Unique(Sectors(rows));
      var locations := Unique(Locations(rows));
      assert forall row :: row in rows ==> row.sector in sectors && row.location in locations by {
        forall row | row in rows ensures row.sector in sectors && row.location in locations {
          var i :| 0 <= i < |rows| && rows[i] == row;
          assert Sectors(rows)[i] == row.sector && Locations(rows)[i] == row.location;
        }
      }
      forall row | row in rows && row.year.Some? ensures row.year.value in years {
        assert HasYear(rows, row.year.value);
      }
      Some(Selection(sectors, Min(years), Max(years), locations))
  }

  /** Under the default selection the filter keeps exactly the dated rows. */
  lemma DefaultKeepsDated(rows: seq<Row>)
    ensures DefaultSelection(rows).Some? ==> Filter(rows, DefaultSelection(rows).value) == Dated(rows)
  {
    if DefaultSelection(rows).Some? {
      AllSelectedKeepsDated(rows, DefaultSelection(rows).value);
    }
  }

  /** If every row's sector and location are selected and every present year is in range, the filter keeps the dated rows. */
  lemma {:induction false} AllSelectedKeepsDated(rows: seq<Row>, sel: Selection)
    requires forall row :: row in rows ==> row.sector in sel.sectors && row.location in sel.locations
    requires forall row :: row in rows && row.year.Some? ==> sel.fromYear <= row.year.value <= sel.toYear
    ensures Filter(rows, sel) == Dated(rows)
  {
    if rows != [] {
      assert rows[0] in rows;
      assert forall row :: row in rows[1..] ==> row in rows;
      AllSelectedKeepsDated(rows[1..], sel);
    }
  }
}
