/** The "Listado Detallado" tab: the filtered rows shown with the name
    column first, then whichever of a fixed list of columns the table has,
    in that list's order. */
module Detail {
  import opened Wrappers
  import opened Text
  import opened Tables
  import opened Columns
  import opened Filters

  const LEVEL_FALLBACK := "NIVEL / CICLO / PROGRAMA"
  const MOTIVO := "MOTIVO DE LA VACANCIA"
  const CODIGO := "C\U{D3}DIGO DE PLAZA"

  /** The columns the tab asks for after the name; the level entry is
      `NIVEL_EDUCATIVO` when the table has it, `NIVEL / CICLO / PROGRAMA`
      otherwise. */
  function BaseColumns(cols: seq<string>): seq<string> {
    [PROVINCIA, DISTRITO, TIPO_VACANTE, if LEVEL_COLUMN in cols then LEVEL_COLUMN else LEVEL_FALLBACK, MOTIVO, CODIGO]
  }

  /** `[c for c in wanted if c in cols]`. */
  function Present(cols: seq<string>, wanted: seq<string>): (r: seq<string>)
    ensures forall c :: c in r <==> c in wanted && c in cols
    ensures Subsequence(r, wanted)
  {
    if |wanted| == 0 then []
    else
      var rest := Present(cols, wanted[1..]);
      assert wanted == [wanted[0]] + wanted[1..];
      if wanted[0] in cols then
        assert ([wanted[0]] + rest)[1..] == rest;
        [wanted[0]] + rest
      else
        rest
  }

  /** The detail columns as the dashboard lists them: the resolved name
      column, placeholder included, then the base columns present. */
  function DetailColumnsAsWritten(cols: seq<string>): (r: seq<string>)
    ensures |r| >= 1 && r[0] == ResolveNameColumn(cols)
    ensures forall c :: c in r[1..] <==> c in BaseColumns(cols) && c in cols
    ensures Subsequence(r[1..], BaseColumns(cols))
  {
    var r := [ResolveNameColumn(cols)] + Present(cols, BaseColumns(cols));
    assert r[1..] == Present(cols, BaseColumns(cols));
    r
  }

  /** The detail columns with the placeholder left out: the name column
      first when there is one, then the base columns present, in base-list
      order; every column listed is a column of the table. */
  function DetailColumns(cols: seq<string>): (r: seq<string>)
    ensures forall c :: c in r ==> c in cols
    ensures NameColumn(cols).Some? ==> |r| >= 1 && r[0] == NameColumn(cols).value
    ensures var rest := if NameColumn(cols).Some? then r[1..] else r;
            && (forall c :: c in rest <==> c in BaseColumns(cols) && c in cols)
            && Subsequence(rest, BaseColumns(cols))
  {
    var base := Present(cols, BaseColumns(cols));
    match NameColumn(cols)
    case None => base
    case Some(name) =>
      assert ([name] + base)[1..] == base;
      [name] + base
  }

  /** `df[cols]`: the rows restricted to `cols`, in that order; pandas'
      KeyError, reported for the first column the table lacks, otherwise. */
  function Project(t: Table, cols: seq<string>): (r: Result<Table, Error>)
    requires Complete(t)
    ensures r.Success? <==> forall c :: c in cols ==> c in t.columns
    ensures r.Failure? ==> r.error.MissingColumn? && r.error.column in cols && r.error.column !in t.columns
    ensures r.Success? ==> r.value.columns == cols && |r.value.rows| == |t.rows|
    ensures r.Success? ==> forall i :: 0 <= i < |t.rows| ==>
              (forall c :: c in r.value.rows[i] <==> c in cols) &&
              forall c :: c in cols ==> r.value.rows[i][c] == t.rows[i][c]
  {
    match Missing(t.columns, cols)
    case Some(c) => Failure(MissingColumn(c))
    case None =>
      Success(Table(cols, seq(|t.rows|, i requires 0 <= i < |t.rows| => map c | c in cols :: t.rows[i][c])))
  }

  /** The first of `cols` that `have` lacks. */
  function Missing(have: seq<string>, cols: seq<string>): (r: Option<string>)
    ensures r.None? <==> forall c :: c in cols ==> c in have
    ensures r.Some? ==> r.value in cols && r.value !in have
  {
    if |cols| == 0 then None
    else if cols[0] !in have then Some(cols[0])
    else
      assert forall c :: c in cols ==> c == cols[0] || c in cols[1..];
      Missing(have, cols[1..])
  }

  /** The corrected projection never fails on a loaded table. */
  lemma DetailViewExists(t: Table)
    requires Complete(t)
    ensures Project(t, DetailColumns(t.columns)).Success?
  {
  }

  /** With no name column, the listed projection asks for the placeholder
      and fails on it: a table holding only `PROVINCIA`, `DISTRITO` and
      `NIVEL_EDUCATIVO`. */
  lemma DetailAsWrittenFails()
    ensures var t := Table([PROVINCIA, DISTRITO, LEVEL_COLUMN], []);
            Project(t, DetailColumnsAsWritten(t.columns)) == Failure(MissingColumn(NAME_COLUMN))
  {
    var t := Table([PROVINCIA, DISTRITO, LEVEL_COLUMN], []);
    PlaceholderIsNotAColumn();
    assert DetailColumnsAsWritten(t.columns)[0] == NAME_COLUMN;
  }
}
