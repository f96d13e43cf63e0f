/** The sidebar's filter cascade: province, district, level and vacancy
    type, each a multiselect whose empty selection restricts nothing, each
    seeing the rows the earlier ones kept, and each offering the sorted
    distinct values of the rows it sees. */
module Filters {
  import opened Wrappers
  import opened Tables
  import opened Ordering
  import opened Columns

  const TIPO_VACANTE := "TIPO_VACANTE"

  /** One filter stage: the column it reads and the values picked. */
  datatype Criterion = Criterion(column: string, selected: set<string>)

  /** What the sidebar's four multiselects hold. */
  datatype Selection = Selection(provinces: set<string>, districts: set<string>, levels: set<string>, types: set<string>)

  /** The value lists offered by the four multiselects; the vacancy-type
      control exists only when the table has that column. */
  datatype Sidebar = Sidebar(provinces: seq<string>, districts: seq<string>, levels: seq<string>, types: Option<seq<string>>)

  /** The cascade's outcome: the lists offered, the rows left, and the
      criteria the stages applied, in order. */
  datatype Filtered = Filtered(sidebar: Sidebar, view: Table, criteria: seq<Criterion>)

  /** Why the dashboard stops: no vacancy file, a required column missing
      (pandas' KeyError), or no level column (the IndexError). */
  datatype Error = DataFileMissing | MissingColumn(column: string) | NoLevelColumn

  predicate Admits(c: Criterion, row: Row) {
    c.selected == {} || (c.column in row && row[c.column] in c.selected)
  }

  predicate AdmitsAll(cs: seq<Criterion>, row: Row) {
    forall k :: 0 <= k < |cs| ==> Admits(cs[k], row)
  }

  /** `a` is `b` with some elements removed, the rest in the same order. */
  ghost predicate Subsequence<T>(a: seq<T>, b: seq<T>)
    decreases |b|
  {
    |a| == 0 || (|b| > 0 && ((a[0] == b[0] && Subsequence(a[1..], b[1..])) || Subsequence(a, b[1..])))
  }

  /** The rows every criterion admits, in table order, each as often as in
      `rows`: the reference the stages are measured against. */
  function Sieve(rows: seq<Row>, cs: seq<Criterion>): (r: seq<Row>)
    ensures Subsequence(r, rows)
    ensures forall i :: 0 <= i < |r| ==> AdmitsAll(cs, r[i]) && r[i] in rows
  {
    if |rows| == 0 then []
    else
      var rest := Sieve(rows[1..], cs);
      assert rows == [rows[0]] + rows[1..];
      if AdmitsAll(cs, rows[0]) then
        assert ([rows[0]] + rest)[1..] == rest;
        [rows[0]] + rest
      else
        rest
  }

  /** Every admitted row stays as often as it occurs; every other row goes. */
  lemma {:induction false} SieveMultiplicity(rows: seq<Row>, cs: seq<Criterion>)
    ensures forall x :: multiset(Sieve(rows, cs))[x] == if AdmitsAll(cs, x) then multiset(rows)[x] else 0
    decreases |rows|
  {
    if |rows| > 0 {
      SieveMultiplicity(rows[1..], cs);
      assert rows == [rows[0]] + rows[1..];
      assert multiset(rows) == multiset{rows[0]} + multiset(rows[1..]);
    }
  }

  /** Sieving keeps a table complete. */
  lemma SieveComplete(t: Table, cs: seq<Criterion>)
    requires Complete(t)
    ensures Complete(Table(t.columns, Sieve(t.rows, cs)))
  {
    var r := Sieve(t.rows, cs);
    forall i | 0 <= i < |r| ensures forall c :: c in r[i] <==> c in t.columns {
      assert r[i] in t.rows;
    }
  }

  lemma HasColumnSieve(rows: seq<Row>, cs: seq<Criterion>, c: string)
    requires HasColumn(rows, c)
    ensures HasColumn(Sieve(rows, cs), c)
  {
  }

  /** Rows that every criterion admits all stay. */
  lemma {:induction false} SieveKeepsAdmitted(rows: seq<Row>, cs: seq<Criterion>)
    requires forall i :: 0 <= i < |rows| ==> AdmitsAll(cs, rows[i])
    ensures Sieve(rows, cs) == rows
    decreases |rows|
  {
    if |rows| > 0 {
      SieveKeepsAdmitted(rows[1..], cs);
      assert rows == [rows[0]] + rows[1..];
    }
  }

  /** Sieving by `a` and then by `b` is sieving by both at once. */
  lemma {:induction false} SieveCompose(rows: seq<Row>, a: seq<Criterion>, b: seq<Criterion>)
    ensures Sieve(Sieve(rows, a), b) == Sieve(rows, a + b)
    decreases |rows|
  {
    if |rows| > 0 {
      SieveCompose(rows[1..], a, b);
      assert AdmitsAll(a + b, rows[0]) <==> AdmitsAll(a, rows[0]) && AdmitsAll(b, rows[0]) by {
        assert forall k :: 0 <= k < |a| ==> (a + b)[k] == a[k];
        assert forall k :: 0 <= k < |b| ==> (a + b)[|a| + k] == b[k];
      }
      var first := Sieve(rows, a);
      if AdmitsAll(a, rows[0]) {
        assert first == [rows[0]] + Sieve(rows[1..], a);
        assert first[1..] == Sieve(rows[1..], a);
      }
    }
  }

  /** Only which criteria apply matters, not their order or repetition. */
  lemma {:induction false} SieveSameCriteria(rows: seq<Row>, a: seq<Criterion>, b: seq<Criterion>)
    requires forall c :: c in a <==> c in b
    ensures Sieve(rows, a) == Sieve(rows, b)
    decreases |rows|
  {
    if |rows| > 0 {
      SieveSameCriteria(rows[1..], a, b);
      assert AdmitsAll(a, rows[0]) <==> AdmitsAll(b, rows[0]) by {
        if AdmitsAll(a, rows[0]) {
          forall k | 0 <= k < |b| ensures Admits(b[k], rows[0]) {
            assert b[k] in a;
          }
        }
        if AdmitsAll(b, rows[0]) {
          forall k | 0 <= k < |a| ensures Admits(a[k], rows[0]) {
            assert a[k] in b;
          }
        }
      }
    }
  }

  /** One stage, `if sel: df = df[df[col].isin(sel)]`: with nothing
      selected the rows pass unchanged; otherwise exactly the rows whose
      cell in the column is selected remain, in their order, each as often
      as before. */
  function Apply(rows: seq<Row>, c: Criterion): (r: seq<Row>)
    ensures c.selected == {} ==> r == rows
    ensures c.selected != {} ==> forall i :: 0 <= i < |r| ==> c.column in r[i] && r[i][c.column] in c.selected
    ensures Subsequence(r, rows)
    ensures r == Sieve(rows, [c])
  {
    SingleCriterion(c);
    if c.selected == {} then
      SieveKeepsAdmitted(rows, [c]);
      rows
    else
      Sieve(rows, [c])
  }

  /** A stage keeps every selected row as often as it occurs and drops the
      rest. */
  lemma ApplyMultiplicity(rows: seq<Row>, c: Criterion)
    ensures forall x :: multiset(Apply(rows, c))[x] == if Admits(c, x) then multiset(rows)[x] else 0
  {
    SieveMultiplicity(rows, [c]);
    SingleCriterion(c);
  }

  lemma SingleCriterion(c: Criterion)
    ensures forall x :: AdmitsAll([c], x) <==> Admits(c, x)
  {
    forall x ensures AdmitsAll([c], x) <==> Admits(c, x) {
      assert [c][0] == c;
    }
  }

  /** Applying a stage a second time keeps every row. */
  lemma ApplyIdempotent(rows: seq<Row>, c: Criterion)
    ensures Apply(Apply(rows, c), c) == Apply(rows, c)
  {
    var once := Apply(rows, c);
    assert forall i :: 0 <= i < |once| ==> AdmitsAll([c], once[i]);
    SieveKeepsAdmitted(once, [c]);
  }

  /** Stages on different columns may run in either order. */
  lemma ApplyCommutes(rows: seq<Row>, a: Criterion, b: Criterion)
    ensures Apply(Apply(rows, a), b) == Apply(Apply(rows, b), a)
  {
    SieveCompose(rows, [a], [b]);
    SieveCompose(rows, [b], [a]);
    SieveSameCriteria(rows, [a] + [b], [b] + [a]);
  }

  /** `sorted(df[c].unique())`: the values of column `c`, each once,
      ascending. */
  function Candidates(rows: seq<Row>, c: string): (r: seq<string>)
    requires HasColumn(rows, c)
    ensures StrictlyAscending(r)
    ensures forall v :: v in r <==> Occurs(rows, c, v)
  {
    var vs := ColumnValues(rows, c);
    var r := SortedUnique(vs);
    assert forall v :: v in vs <==> Occurs(rows, c, v) by {
      forall v ensures v in vs <==> Occurs(rows, c, v) {
        if v in vs {
          var i :| 0 <= i < |vs| && vs[i] == v;
          assert rows[i][c] == v;
        }
      }
    }
    r
  }

  /** The district list as the dashboard builds it: when provinces are
      selected it re-applies the province mask to `view` first. */
  function DistrictOptions(view: seq<Row>, provinces: set<string>): (r: seq<string>)
    requires HasColumn(view, DISTRITO)
    ensures StrictlyAscending(r)
    ensures forall v :: v in r <==> Occurs(Apply(view, Criterion(PROVINCIA, provinces)), DISTRITO, v)
  {
    HasColumnSieve(view, [Criterion(PROVINCIA, provinces)], DISTRITO);
    if provinces != {} then Candidates(Sieve(view, [Criterion(PROVINCIA, provinces)]), DISTRITO)
    else Candidates(view, DISTRITO)
  }

  /** The criteria of the cascade, in the dashboard's order. */
  function Criteria(sel: Selection, level: string, hasType: bool): (cs: seq<Criterion>)
    ensures |cs| == if hasType then 4 else 3
    ensures cs[0] == Criterion(PROVINCIA, sel.provinces)
    ensures cs[1] == Criterion(DISTRITO, sel.districts)
    ensures cs[2] == Criterion(level, sel.levels)
    ensures hasType ==> cs[3] == Criterion(TIPO_VACANTE, sel.types)
  {
    [Criterion(PROVINCIA, sel.provinces), Criterion(DISTRITO, sel.districts), Criterion(level, sel.levels)]
      + (if hasType then [Criterion(TIPO_VACANTE, sel.types)] else [])
  }

  /** The sidebar block of the dashboard, run on the loaded table. */
  function Cascade(t: Table, sel: Selection): (r: Result<Filtered, Error>)
    requires Complete(t)
    ensures PROVINCIA !in t.columns ==> r == Failure(MissingColumn(PROVINCIA))
    ensures PROVINCIA in t.columns && DISTRITO !in t.columns ==> r == Failure(MissingColumn(DISTRITO))
    ensures PROVINCIA in t.columns && DISTRITO in t.columns && LevelColumn(t.columns).None? ==>
              r == Failure(NoLevelColumn)
    ensures r.Success? <==> PROVINCIA in t.columns && DISTRITO in t.columns && LevelColumn(t.columns).Some?
    ensures r.Success? ==> r.value.criteria == Criteria(sel, LevelColumn(t.columns).value, TIPO_VACANTE in t.columns)
    ensures r.Success? ==> r.value.view == Table(t.columns, Sieve(t.rows, r.value.criteria))
    ensures r.Success? ==> Complete(r.value.view)
    ensures r.Success? ==> Offers(t, r.value)
  {
    if PROVINCIA !in t.columns then Failure(MissingColumn(PROVINCIA))
    else if DISTRITO !in t.columns then Failure(MissingColumn(DISTRITO))
    else match LevelColumn(t.columns)
      case None => Failure(NoLevelColumn)
      case Some(level) => Success(RunStages(t, sel, level))
  }

  /** Every list the sidebar offers is ascending, without duplicates, and
      holds exactly the values found in the rows its stage sees: all rows
      for the provinces, the province-filtered rows for the districts, and
      so on down the cascade. */
  ghost predicate Offers(t: Table, f: Filtered)
    requires |f.criteria| >= 3
  {
    var cs := f.criteria;
    && StrictlyAscending(f.sidebar.provinces)
    && (forall v :: v in f.sidebar.provinces <==> Occurs(t.rows, PROVINCIA, v))
    && StrictlyAscending(f.sidebar.districts)
    && (forall v :: v in f.sidebar.districts <==> Occurs(Sieve(t.rows, cs[..1]), DISTRITO, v))
    && StrictlyAscending(f.sidebar.levels)
    && (forall v :: v in f.sidebar.levels <==> Occurs(Sieve(t.rows, cs[..2]), cs[2].column, v))
    && (f.sidebar.types.Some? <==> |cs| == 4)
    && (f.sidebar.types.Some? ==>
          && StrictlyAscending(f.sidebar.types.value)
          && forall v :: v in f.sidebar.types.value <==> Occurs(Sieve(t.rows, cs[..3]), TIPO_VACANTE, v))
  }

  /** The four stages and their value lists, once the columns are known. */
  function RunStages(t: Table, sel: Selection, level: string): (f: Filtered)
    requires Complete(t) && PROVINCIA in t.columns && DISTRITO in t.columns && level in t.columns
    ensures f.criteria == Criteria(sel, level, TIPO_VACANTE in t.columns)
    ensures f.view == Table(t.columns, Sieve(t.rows, f.criteria))
    ensures Offers(t, f)
  {
    var hasType := TIPO_VACANTE in t.columns;
    var cs := Criteria(sel, level, hasType);
    CascadeViews(t.rows, cs);
    CompleteHasColumn(t, PROVINCIA);
    CompleteHasColumn(t, DISTRITO);
    CompleteHasColumn(t, level);
    HasColumnSieve(t.rows, cs[..1], DISTRITO);
    HasColumnSieve(t.rows, cs[..2], level);
    var provinces := Candidates(t.rows, PROVINCIA);
    var byProvince := Apply(t.rows, cs[0]);
    var districts := DistrictOptions(byProvince, sel.provinces);
    ApplyIdempotent(t.rows, cs[0]);
    var byDistrict := Apply(byProvince, cs[1]);
    var levels := Candidates(byDistrict, level);
    var byLevel := Apply(byDistrict, cs[2]);
    if hasType then
      CompleteHasColumn(t, TIPO_VACANTE);
      HasColumnSieve(t.rows, cs[..3], TIPO_VACANTE);
      var types := Candidates(byLevel, TIPO_VACANTE);
      assert cs[..4] == cs;
      Filtered(Sidebar(provinces, districts, levels, Some(types)), Table(t.columns, Apply(byLevel, cs[3])), cs)
    else
      assert cs[..3] == cs;
      Filtered(Sidebar(provinces, districts, levels, None), Table(t.columns, byLevel), cs)
  }

  /** Each stage's input is the sieve by the criteria before it. */
  lemma CascadeViews(rows: seq<Row>, cs: seq<Criterion>)
    requires |cs| >= 3
    ensures Apply(rows, cs[0]) == Sieve(rows, cs[..1])
    ensures Apply(Sieve(rows, cs[..1]), cs[1]) == Sieve(rows, cs[..2])
    ensures Apply(Sieve(rows, cs[..2]), cs[2]) == Sieve(rows, cs[..3])
    ensures |cs| > 3 ==> Apply(Sieve(rows, cs[..3]), cs[3]) == Sieve(rows, cs[..4])
  {
    assert cs[..1] == [cs[0]];
    SieveCompose(rows, cs[..1], [cs[1]]);
    assert cs[..1] + [cs[1]] == cs[..2];
    SieveCompose(rows, cs[..2], [cs[2]]);
    assert cs[..2] + [cs[2]] == cs[..3];
    if |cs| > 3 {
      SieveCompose(rows, cs[..3], [cs[3]]);
      assert cs[..3] + [cs[3]] == cs[..4];
    }
  }

  /** Without a `TIPO_VACANTE` column there is no vacancy-type stage: what
      is picked for it changes nothing. */
  lemma TypeStageSkipped(t: Table, sel: Selection, types: set<string>)
    requires Complete(t) && TIPO_VACANTE !in t.columns
    ensures Cascade(t, sel) == Cascade(t, sel.(types := types))
    ensures Cascade(t, sel).Success? ==> |Cascade(t, sel).value.criteria| == 3
  {
    var other := sel.(types := types);
    if PROVINCIA in t.columns && DISTRITO in t.columns && LevelColumn(t.columns).Some? {
      var level := LevelColumn(t.columns).value;
      assert Criteria(sel, level, false) == Criteria(other, level, false);
    }
  }

  /** With provinces picked, every district offered is the district of a
      row whose province is picked. */
  lemma DistrictsFromPickedProvinces(t: Table, sel: Selection, v: string)
    requires Complete(t) && sel.provinces != {}
    requires PROVINCIA in t.columns && DISTRITO in t.columns && LevelColumn(t.columns).Some?
    ensures Cascade(t, sel).Success?
    ensures v in Cascade(t, sel).value.sidebar.districts ==>
              exists i :: 0 <= i < |t.rows| && t.rows[i][PROVINCIA] in sel.provinces && t.rows[i][DISTRITO] == v
  {
    var f := Cascade(t, sel).value;
    if v in f.sidebar.districts {
      assert Offers(t, f);
      CompleteHasColumn(t, PROVINCIA);
      CompleteHasColumn(t, DISTRITO);
      PickedProvinceRow(t.rows, f.criteria[..1], v);
    }
  }

  lemma PickedProvinceRow(rows: seq<Row>, cs: seq<Criterion>, v: string)
    requires HasColumn(rows, PROVINCIA) && HasColumn(rows, DISTRITO)
    requires |cs| == 1 && cs[0].column == PROVINCIA && cs[0].selected != {}
    requires Occurs(Sieve(rows, cs), DISTRITO, v)
    ensures exists i :: 0 <= i < |rows| && rows[i][PROVINCIA] in cs[0].selected && rows[i][DISTRITO] == v
  {
    var kept := Sieve(rows, cs);
    var k :| 0 <= k < |kept| && DISTRITO in kept[k] && kept[k][DISTRITO] == v;
    assert Admits(cs[0], kept[k]);
    var i :| 0 <= i < |rows| && rows[i] == kept[k];
  }
}
