/**
 * The tables behind the dashboard's charts, each computed from the filtered
 * view: the top locations and sectors by number of unicorns and the yearly
 * series of new unicorns.
 */
module Charts {
  import opened Wrappers
  import opened Seqs
  import opened Startups
  import opened Tallies

  /**
   * "Top Locations by Unicorn Count": `view['Location'].value_counts().head(10)`.
   * At most ten bars, each a location of the view with the number of its rows
   * there, tallest first, no location left out having more rows than a bar shown;
   * with fewer than ten bars every location is shown.
   */
  function TopLocations(view: seq<Row>): (r: seq<Tally<string>>)
    ensures |r| <= 10
    ensures forall t :: t in r ==>
      (exists row :: row in view && row.location == t.value) && 0 < t.count == Occurrences(Locations(view), t.value)
    ensures forall i, j :: 0 <= i < j < |r| ==> r[i].count >= r[j].count
    ensures |r| < 10 ==> forall row :: row in view ==> row.location in Keys(r)
    ensures NoDups(Keys(r))
    ensures forall t, row :: t in r && row in view && row.location !in Keys(r) ==>
      Occurrences(Locations(view), row.location) <= t.count
  {
    var r := TopN(Locations(view), 10);
    TopNLeavesOutNoMoreFrequent(Locations(view), 10);
    forall t | t in r
      ensures exists row :: row in view && row.location == t.value
    {
      var i :| 0 <= i < |view| && Locations(view)[i] == t.value;
      assert view[i] in view;
    }
    forall row | row in view
      ensures row.location in Locations(view)
    {
      var i :| 0 <= i < |view| && view[i] == row;
      assert Locations(view)[i] == row.location;
    }
    r
  }

  /**
   * "Top Sectors by Unicorn Count": `view['Sector'].value_counts().head(10)`.
   * At most ten bars, each a sector of the view with the number of its rows in
   * it, tallest first, no sector left out having more rows than a bar shown;
   * with fewer than ten bars every sector is shown.
   */
  function TopSectors(view: seq<Row>): (r: seq<Tally<string>>)
    ensures |r| <= 10
    ensures forall t :: t in r ==>
      (exists row :: row in view && row.sector == t.value) && 0 < t.count == Occurrences(Sectors(view), t.value)
    ensures forall i, j :: 0 <= i < j < |r| ==> r[i].count >= r[j].count
    ensures |r| < 10 ==> forall row :: row in view ==> row.sector in Keys(r)
    ensures NoDups(Keys(r))
    ensures forall t, row :: t in r && row in view && row.sector !in Keys(r) ==>
      Occurrences(Sectors(view), row.sector) <= t.count
  {
    var r := TopN(Sectors(view), 10);
    TopNLeavesOutNoMoreFrequent(Sectors(view), 10);
    forall t | t in r
      ensures exists row :: row in view && row.sector == t.value
    {
      var i :| 0 <= i < |view| && Sectors(view)[i] == t.value;
      assert view[i] in view;
    }
    forall row | row in view
      ensures row.sector in Sectors(view)
    {
      var i :| 0 <= i < |view| && view[i] == row;
      assert Sectors(view)[i] == row.sector;
    }
    r
  }

  /**
   * "Sector Distribution" pie: `view['Sector'].value_counts().head(5)`. At most
   * five slices, each a sector of the view with its number of rows, largest
   * first, no sector left out having more rows than a slice shown.
   */
  function SectorDistribution(view: seq<Row>): (r: seq<Tally<string>>)
    ensures |r| <= 5
    ensures forall t :: t in r ==> t.value in Sectors(view) && 0 < t.count == Occurrences(Sectors(view), t.value)
    ensures forall i, j :: 0 <= i < j < |r| ==> r[i].count >= r[j].count
    ensures |r| < 5 ==> forall v :: v in Sectors(view) ==> v in Keys(r)
    ensures NoDups(Keys(r))
    ensures forall t, v :: t in r && v in Sectors(view) && v !in Keys(r) ==> Occurrences(Sectors(view), v) <= t.count
  {
    TopNLeavesOutNoMoreFrequent(Sectors(view), 5);
    TopN(Sectors(view), 5)
  }

  /** The pie shows the first five lines of the ten-line sector ranking. */
  lemma SectorDistributionIsHeadOfTopSectors(view: seq<Row>)
    ensures SectorDistribution(view) <= TopSectors(view)
    ensures |SectorDistribution(view)| == if |TopSectors(view)| < 5 then |TopSectors(view)| else 5
  {
    TopNPrefix(Sectors(view), 5, 10);
  }

  /**
   * "Yearly Unicorn Growth": `view.groupby("Year").size()`. One line per year
   * that some row of the view carries, years strictly ascending, each with the
   * positive number of rows of that year; rows without a year are not counted.
   */
  function YearlyCounts(view: seq<Row>): (r: seq<Tally<int>>)
    ensures forall i, j :: 0 <= i < j < |r| ==> r[i].value < r[j].value
    ensures forall y :: y in Keys(r) <==> HasYear(view, y)
    ensures forall t :: t in r ==> 0 < t.count == Occurrences(Years(view), t.value)
    ensures Total(r) == |Dated(view)|
  {
    var years := Years(view);
    var r := SortBy(Tallying(years), ByValue);
    SortedCounter(years, ByValue);
    SortedCounterLines(years, ByValue);
    StrictlyAscending(r);
    r
  }

  /** A view of four startups, the third without a parsable entry date. */
  function ExampleView(): seq<Row> {
    [ Row("Fintech", "Bengaluru", Some(2021), None),
      Row("Edtech", "Mumbai", Some(2021), None),
      Row("Fintech", "Pune", None, None),
      Row("SaaS", "Bengaluru", Some(2022), None)]
  }

  /** The example view's years are 2021, 2021, a missing one and 2022: it gives the series (2021, 2), (2022, 1). */
  lemma YearlyCountsExample()
    ensures YearlyCounts(ExampleView()) == [Tally(2021, 2), Tally(2022, 1)]
  {
    ExampleYears();
    ExampleCounter();
  }

  /** Dropping the missing year of the example view. */
  lemma ExampleYears()
    ensures Years(ExampleView()) == [2021, 2021, 2022]
  {
    assert YearColumn(ExampleView()) == [Some(2021), Some(2021), None, Some(2022)];
    ExampleDropMissing();
  }

  /** `dropna()` on the example view's `Year` column. */
  lemma ExampleDropMissing()
    ensures DropMissing([Some(2021), Some(2021), None, Some(2022)]) == [2021, 2021, 2022]
  {
    DropPresent(2021, [Some(2021), None, Some(2022)]);
    DropPresent(2021, [None, Some(2022)]);
    DropAbsent([Some(2022)]);
    DropPresent(2022, []);
  }

  /** A present first cell is kept in front of the rest. */
  lemma DropPresent(x: int, s: seq<Option<int>>)
    ensures DropMissing([Some(x)] + s) == [x] + DropMissing(s)
  {
    assert ([Some(x)] + s)[1..] == s;
  }

  /** A missing first cell is dropped. */
  lemma DropAbsent(s: seq<Option<int>>)
    ensures DropMissing([None] + s) == DropMissing(s)
  {
    assert ([None] + s)[1..] == s;
  }

  /** Counting the years 2021, 2021, 2022 and sorting by year. */
  lemma ExampleCounter()
    ensures SortBy(Tallying([2021, 2021, 2022]), ByValue) == [Tally(2021, 2), Tally(2022, 1)]
  {
    var years := [2021, 2021, 2022];
    assert Tallying(years[..1]) == [Tally(2021, 1)];
    assert Tallying(years[..2]) == [Tally(2021, 2)];
    assert years[..|years| - 1] == years[..2];
    assert Bump([Tally(2021, 2)], 2022) == [Tally(2021, 2)] + Bump([], 2022);
    assert Tallying(years) == [Tally(2021, 2), Tally(2022, 1)];
    var ts := [Tally(2021, 2), Tally(2022, 1)];
    assert SortBy(ts[1..], ByValue) == [Tally(2022, 1)];
  }
}
