/** The vacancy table and the loader's clean-up (`cargar_datos`). A table
    is its column list and its rows; a row maps column names to cell
    text, and a cell the CSV reader found empty (pandas' NaN) is simply
    absent from its row. */
module Tables {
  import opened Text

  type Row = map<string, string>

  datatype Table = Table(columns: seq<string>, rows: seq<Row>)

  const PROVINCIA := "PROVINCIA"
  const DISTRITO := "DISTRITO"

  /** The text written into every missing cell ("SIN INFORMACIÓN"). */
  const SENTINEL := "SIN INFORMACI\U{D3}N"

  /** No cell is missing: every row holds exactly one cell per column. */
  ghost predicate Complete(t: Table) {
    forall i :: 0 <= i < |t.rows| ==> forall c :: c in t.rows[i] <==> c in t.columns
  }

  ghost predicate HasColumn(rows: seq<Row>, c: string) {
    forall i :: 0 <= i < |rows| ==> c in rows[i]
  }

  lemma CompleteHasColumn(t: Table, c: string)
    requires Complete(t) && c in t.columns
    ensures HasColumn(t.rows, c)
  {
  }

  /** The column `c` of `rows`, top to bottom (pandas' `df[c]`). */
  function ColumnValues(rows: seq<Row>, c: string): (vs: seq<string>)
    requires HasColumn(rows, c)
    ensures |vs| == |rows| && forall i :: 0 <= i < |rows| ==> vs[i] == rows[i][c]
  {
    seq(|rows|, i requires 0 <= i < |rows| => rows[i][c])
  }

  /** The number of rows holding `v` in column `c`. */
  function Tally(rows: seq<Row>, c: string, v: string): nat {
    if |rows| == 0 then 0
    else (if c in rows[0] && rows[0][c] == v then 1 else 0) + Tally(rows[1..], c, v)
  }

  /** Counting rows is counting the column's values. */
  lemma {:induction false} TallyIsMultiplicity(rows: seq<Row>, c: string, v: string)
    requires HasColumn(rows, c)
    ensures Tally(rows, c, v) == multiset(ColumnValues(rows, c))[v]
    decreases |rows|
  {
    if |rows| > 0 {
      TallyIsMultiplicity(rows[1..], c, v);
      assert ColumnValues(rows, c) == [rows[0][c]] + ColumnValues(rows[1..], c);
    }
  }

  /** Some row holds `v` in column `c`. */
  ghost predicate Occurs(rows: seq<Row>, c: string, v: string) {
    exists i :: 0 <= i < |rows| && c in rows[i] && rows[i][c] == v
  }

  /** The two columns the loader cleans. */
  predicate IsRegionColumn(c: string) {
    c == PROVINCIA || c == DISTRITO
  }

  lemma SentinelIsClean()
    ensures IsTrimmed(SENTINEL) && IsUpperCase(SENTINEL)
  {
    assert SENTINEL == ['S', 'I', 'N', ' ', 'I', 'N', 'F', 'O', 'R', 'M', 'A', 'C', 'I', '\U{D3}', 'N'];
  }

  /** One cell after loading: a missing cell becomes the sentinel
      (`fillna`), then a region cell is stripped and upper-cased. */
  function LoadCell(row: Row, c: string): (v: string)
    ensures c !in row ==> v == SENTINEL
    ensures c in row && !IsRegionColumn(c) ==> v == row[c]
    ensures IsRegionColumn(c) ==> IsTrimmed(v) && IsUpperCase(v)
    ensures IsRegionColumn(c) && c in row ==> v == Clean(row[c])
  {
    var filled := if c in row then row[c] else SENTINEL;
    if IsRegionColumn(c) then
      SentinelIsClean();
      Clean(filled)
    else
      filled
  }

  /** `cargar_datos` once the CSV is read: fill every missing cell with the
      sentinel, then strip and upper-case `PROVINCIA` and `DISTRITO`. */
  function Load(t: Table): (r: Table)
    ensures r.columns == t.columns && |r.rows| == |t.rows|
    ensures Complete(r)
    ensures forall i, c :: 0 <= i < |t.rows| && c in t.columns && c !in t.rows[i] ==>
              r.rows[i][c] == SENTINEL
    ensures forall i, c :: 0 <= i < |t.rows| && c in t.columns && c in t.rows[i] && !IsRegionColumn(c) ==>
              r.rows[i][c] == t.rows[i][c]
    ensures forall i, c :: 0 <= i < |t.rows| && c in t.columns && c in t.rows[i] && IsRegionColumn(c) ==>
              r.rows[i][c] == Clean(t.rows[i][c])
    ensures forall i, c :: 0 <= i < |t.rows| && c in t.columns && IsRegionColumn(c) ==>
              IsTrimmed(r.rows[i][c]) && IsUpperCase(r.rows[i][c])
    ensures forall i, c :: 0 <= i < |t.rows| && c in t.columns && IsRegionColumn(c) ==>
              (r.rows[i][c] == "" <==> c in t.rows[i] && AllSpace(t.rows[i][c]))
  {
    Table(t.columns, seq(|t.rows|, i requires 0 <= i < |t.rows| => LoadRow(t.columns, t.rows[i])))
  }

  function LoadRow(columns: seq<string>, row: Row): (r: Row)
    ensures forall c :: c in r <==> c in columns
    ensures forall c :: c in columns ==> r[c] == LoadCell(row, c)
  {
    map c | c in columns :: LoadCell(row, c)
  }

  /** Loading a loaded table changes nothing. */
  lemma LoadIdempotent(t: Table)
    ensures Load(Load(t)) == Load(t)
  {
    var once := Load(t);
    var twice := Load(once);
    forall i | 0 <= i < |t.rows| ensures twice.rows[i] == once.rows[i] {
      forall c | c in t.columns ensures twice.rows[i][c] == once.rows[i][c] {
        if IsRegionColumn(c) {
          assert once.rows[i][c] == Clean(once.rows[i][c]);
        }
      }
    }
  }
}
