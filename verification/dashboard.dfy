/** The whole dashboard from its inputs: the vacancy file (absent when it
    could not be read), the district coordinate table (likewise), the
    province dictionary, the sidebar selections and the map radio. */
module Dashboard {
  import opened Wrappers
  import opened Tables
  import opened Columns
  import opened Filters
  import opened Counting
  import opened Geo
  import opened Detail

  /** Length of both bar-chart rankings. */
  const TOP_N := 15

  /** Everything the page shows: the vacancy count in the title, the
      sidebar lists, the heat map, the two rankings (no school ranking when
      the table has no name column) and the detail table. */
  datatype Page = Page(vacancies: nat, sidebar: Sidebar, heatMap: MapData,
                       topSchools: Option<seq<Entry<string>>>, topDistricts: seq<Entry<string>>, detail: Table)

  /** "Top Colegios" as the dashboard computes it: counting the resolved
      name column, which raises KeyError when that is the placeholder. */
  function TopSchoolsAsWritten(view: Table): (r: Result<seq<Entry<string>>, Error>)
    requires Complete(view)
    ensures r.Failure? <==> NameColumn(view.columns).None?
    ensures r.Failure? ==> r.error == MissingColumn(NAME_COLUMN)
    ensures r.Success? ==> r.value == TopSchools(view).value
  {
    var name := ResolveNameColumn(view.columns);
    if name in view.columns then
      CompleteHasColumn(view, name);
      Success(Ranking(view.rows, name, TOP_N))
    else
      Failure(MissingColumn(name))
  }

  /** "Top Colegios" with the placeholder left out: when the table has a
      name column, its fifteen most frequent values. */
  function TopSchools(view: Table): (r: Option<seq<Entry<string>>>)
    requires Complete(view)
    ensures r.None? <==> NameColumn(view.columns).None?
    ensures r.Some? ==> |r.value| <= TOP_N && DistinctValues(r.value)
    ensures r.Some? ==> forall i :: 0 <= i < |r.value| ==>
              r.value[i].count == Tally(view.rows, NameColumn(view.columns).value, r.value[i].value) &&
              r.value[i].count >= 1
    ensures r.Some? ==> forall i, j :: 0 <= i < j < |r.value| ==> r.value[i].count >= r.value[j].count
    ensures r.Some? && |r.value| < TOP_N ==>
              forall v :: Occurs(view.rows, NameColumn(view.columns).value, v) ==> HasValue(r.value, v)
    ensures r.Some? ==> forall i, v ::
              0 <= i < |r.value| && Occurs(view.rows, NameColumn(view.columns).value, v) && !HasValue(r.value, v) ==>
                r.value[i].count >= Tally(view.rows, NameColumn(view.columns).value, v)
  {
    match NameColumn(view.columns)
    case None => None
    case Some(name) =>
      CompleteHasColumn(view, name);
      Some(Ranking(view.rows, name, TOP_N))
  }

  /** `df[c].value_counts().head(n)`: the n values of column `c` held by
      the most rows, each with its number of rows, most frequent first. */
  function Ranking(rows: seq<Row>, c: string, n: nat): (r: seq<Entry<string>>)
    requires HasColumn(rows, c)
    ensures |r| <= n
    ensures DistinctValues(r)
    ensures forall i :: 0 <= i < |r| ==> r[i].count == Tally(rows, c, r[i].value) && r[i].count >= 1
    ensures forall i, j :: 0 <= i < j < |r| ==> r[i].count >= r[j].count
    ensures |r| < n ==> forall v :: Occurs(rows, c, v) ==> HasValue(r, v)
    ensures forall i, v :: 0 <= i < |r| && Occurs(rows, c, v) && !HasValue(r, v) ==> r[i].count >= Tally(rows, c, v)
  {
    var vs := ColumnValues(rows, c);
    var r := TopN(vs, n);
    OccursInColumn(rows, c);
    forall v ensures Tally(rows, c, v) == multiset(vs)[v] {
      TallyIsMultiplicity(rows, c, v);
    }
    r
  }

  /** A school ranking on a table with only `PROVINCIA`, `DISTRITO` and
      `NIVEL_EDUCATIVO` fails as written, on the placeholder column. */
  lemma TopSchoolsAsWrittenFails()
    ensures TopSchoolsAsWritten(Table([PROVINCIA, DISTRITO, LEVEL_COLUMN], [])) == Failure(MissingColumn(NAME_COLUMN))
  {
    PlaceholderIsNotAColumn();
  }

  /** The page for the given inputs, or why the dashboard stops. */
  function Run(file: Option<Table>, districtCoords: Option<map<Place, Coord>>, provinceCoords: map<string, Coord>,
               sel: Selection, requested: Granularity): (r: Result<Page, Error>)
    ensures file.None? ==> r == Failure(DataFileMissing)
    ensures file.Some? ==> (r.Success? <==> var cols := file.value.columns;
              PROVINCIA in cols && DISTRITO in cols && LevelColumn(cols).Some?)
    ensures file.Some? && r.Failure? ==> r == Failure(Cascade(Load(file.value), sel).error)
    ensures r.Success? ==> r.value.vacancies == |file.value.rows|
    ensures r.Success? ==> (r.value.heatMap.Mode() == Distrito <==> requested == Distrito && districtCoords.Some?)
    ensures r.Success? ==> (r.value.topSchools.Some? <==> NameColumn(file.value.columns).Some?)
    ensures r.Success? ==> |r.value.topDistricts| <= TOP_N
    ensures r.Success? ==> r.value.detail.columns == DetailColumns(file.value.columns)
    ensures r.Success? ==> var f := Cascade(Load(file.value), sel).value;
              && r.value.sidebar == f.sidebar
              && r.value.heatMap == Aggregate(f.view.rows, requested, districtCoords, provinceCoords)
              && r.value.topSchools == TopSchools(f.view)
              && r.value.topDistricts == Ranking(f.view.rows, DISTRITO, TOP_N)
              && r.value.detail == Project(f.view, DetailColumns(file.value.columns)).value
  {
    match file
    case None => Failure(DataFileMissing)
    case Some(raw) =>
      var t := Load(raw);
      match Cascade(t, sel)
      case Failure(e) => Failure(e)
      case Success(f) =>
        var view := f.view;
        SieveComplete(t, f.criteria);
        CompleteHasColumn(view, PROVINCIA);
        CompleteHasColumn(view, DISTRITO);
        Success(Page(|t.rows|, f.sidebar, Aggregate(view.rows, requested, districtCoords, provinceCoords),
                     TopSchools(view), Ranking(view.rows, DISTRITO, TOP_N),
                     Project(view, DetailColumns(t.columns)).value))
  }

  /** With the placeholder left out, a file without a name column still
      gives a page: no school ranking, and a detail table without a name
      column. */
  lemma NamelessFileStillRenders(rows: seq<Row>, sel: Selection, requested: Granularity)
    ensures var r := Run(Some(Table([PROVINCIA, DISTRITO, LEVEL_COLUMN], rows)), None, map[], sel, requested);
            && r.Success?
            && r.value.topSchools.None?
            && NAME_COLUMN !in r.value.detail.columns
  {
    var cols := [PROVINCIA, DISTRITO, LEVEL_COLUMN];
    PlaceholderIsNotAColumn();
    assert LevelColumn(cols).Some?;
    var r := Run(Some(Table(cols, rows)), None, map[], sel, requested);
    assert r.Success?;
    assert forall c :: c in r.value.detail.columns ==> c in cols;
  }
}
