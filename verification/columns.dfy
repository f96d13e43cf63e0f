/** Finding the institution-name column and the education-level column,
    whose names differ between input files: take the preferred name when
    the table has it, otherwise the first column (in column order) whose
    name contains one of a few hints. */
module Columns {
  import opened Wrappers
  import opened Text

  const NAME_COLUMN := "NOMBRE_IE"
  const NAME_HINTS: seq<string> := ["NOMBRE", "INSTITUCION", "I.E."]
  const LEVEL_COLUMN := "NIVEL_EDUCATIVO"
  const LEVEL_HINTS: seq<string> := ["NIVEL"]

  /** The name `c` contains one of `hints`. */
  ghost predicate Hinted(c: string, hints: seq<string>) {
    exists h :: h in hints && IsSubstring(h, c)
  }

  function MatchesHint(c: string, hints: seq<string>): (b: bool)
    ensures b <==> Hinted(c, hints)
  {
    if |hints| == 0 then false
    else if Contains(c, hints[0]) then true
    else
      assert forall h :: h in hints <==> h == hints[0] || h in hints[1..];
      MatchesHint(c, hints[1..])
  }

  /** Index of the first column whose name contains a hint. */
  function FirstHinted(cols: seq<string>, hints: seq<string>): (r: Option<nat>)
    ensures r.Some? ==> r.value < |cols| && Hinted(cols[r.value], hints)
    ensures r.Some? ==> forall k :: 0 <= k < r.value ==> !Hinted(cols[k], hints)
    ensures r.None? ==> forall k :: 0 <= k < |cols| ==> !Hinted(cols[k], hints)
  {
    if |cols| == 0 then None
    else if MatchesHint(cols[0], hints) then Some(0)
    else
      match FirstHinted(cols[1..], hints)
      case None => None
      case Some(k) => Some(k + 1)
  }

  /** The column a feature reads: `preferred` when present, else the first
      hinted column, else nothing. */
  function Resolve(cols: seq<string>, preferred: string, hints: seq<string>): (r: Option<string>)
    ensures preferred in cols ==> r == Some(preferred)
    ensures preferred !in cols ==> (r.Some? <==> exists k :: 0 <= k < |cols| && Hinted(cols[k], hints))
    ensures preferred !in cols && r.Some? ==>
              exists k :: 0 <= k < |cols| && cols[k] == r.value && Hinted(cols[k], hints) &&
                          forall j :: 0 <= j < k ==> !Hinted(cols[j], hints)
    ensures r.Some? ==> r.value in cols
  {
    if preferred in cols then Some(preferred)
    else
      match FirstHinted(cols, hints)
      case None => None
      case Some(k) => Some(cols[k])
  }

  /** The name column exactly as the dashboard computes it: when nothing
      matches, the placeholder `NOMBRE_IE` is used even though the table
      has no such column. */
  function ResolveNameColumn(cols: seq<string>): (name: string)
    ensures name in cols || name == NAME_COLUMN
    ensures NAME_COLUMN in cols ==> name == NAME_COLUMN
    ensures name !in cols <==> NameColumn(cols).None?
    ensures NameColumn(cols).Some? ==> name == NameColumn(cols).value
  {
    NameColumn(cols).GetOr(NAME_COLUMN)
  }

  /** The name column with the placeholder replaced by an explicit
      "not found": when present, it is a column of the table. */
  function NameColumn(cols: seq<string>): (r: Option<string>)
    ensures r.Some? ==> r.value in cols
    ensures NAME_COLUMN in cols ==> r == Some(NAME_COLUMN)
    ensures NAME_COLUMN !in cols && r.Some? ==>
              exists k :: 0 <= k < |cols| && cols[k] == r.value && Hinted(cols[k], NAME_HINTS) &&
                          forall j :: 0 <= j < k ==> !Hinted(cols[j], NAME_HINTS)
    ensures r.None? <==> NAME_COLUMN !in cols && forall k :: 0 <= k < |cols| ==> !Hinted(cols[k], NAME_HINTS)
  {
    Resolve(cols, NAME_COLUMN, NAME_HINTS)
  }

  /** The level column: `NIVEL_EDUCATIVO`, else the first column whose name
      contains `NIVEL`; none (the dashboard's IndexError) otherwise. */
  function LevelColumn(cols: seq<string>): (r: Option<string>)
    ensures r.Some? ==> r.value in cols
    ensures LEVEL_COLUMN in cols ==> r == Some(LEVEL_COLUMN)
    ensures LEVEL_COLUMN !in cols && r.Some? ==>
              exists k :: 0 <= k < |cols| && cols[k] == r.value && Hinted(cols[k], LEVEL_HINTS) &&
                          forall j :: 0 <= j < k ==> !Hinted(cols[j], LEVEL_HINTS)
    ensures r.None? <==> LEVEL_COLUMN !in cols && forall k :: 0 <= k < |cols| ==> !Hinted(cols[k], LEVEL_HINTS)
  {
    Resolve(cols, LEVEL_COLUMN, LEVEL_HINTS)
  }

  /** A table with the province, district and level columns but no name
      column: the dashboard's resolution still answers `NOMBRE_IE`, a
      column that the later look-ups do not find. */
  lemma PlaceholderIsNotAColumn()
    ensures ResolveNameColumn(["PROVINCIA", "DISTRITO", "NIVEL_EDUCATIVO"]) == NAME_COLUMN
    ensures NAME_COLUMN !in ["PROVINCIA", "DISTRITO", "NIVEL_EDUCATIVO"]
    ensures NameColumn(["PROVINCIA", "DISTRITO", "NIVEL_EDUCATIVO"]).None?
  {
    var cols := ["PROVINCIA", "DISTRITO", "NIVEL_EDUCATIVO"];
    assert NAME_COLUMN != cols[0] by { assert NAME_COLUMN[0] != cols[0][0]; }
    assert NAME_COLUMN != cols[1] by { assert NAME_COLUMN[0] != cols[1][0]; }
    assert NAME_COLUMN != cols[2] by { assert |NAME_COLUMN| != |cols[2]|; }
    RegionAndLevelUnhinted();
    assert forall k :: 0 <= k < |cols| ==> !Hinted(cols[k], NAME_HINTS);
  }

  /** None of `PROVINCIA`, `DISTRITO` and `NIVEL_EDUCATIVO` contains a
      name hint. */
  lemma RegionAndLevelUnhinted()
    ensures !Hinted("PROVINCIA", NAME_HINTS) && !Hinted("DISTRITO", NAME_HINTS)
    ensures !Hinted("NIVEL_EDUCATIVO", NAME_HINTS)
  {
    NoNameHint("PROVINCIA", 3, 6);
    NoNameHint("DISTRITO", 3, 6);
    NoNameHint("NIVEL_EDUCATIVO", 3, 2);
  }

  /** A name lacking letter `i` of `NOMBRE`, letter `j` of `INSTITUCION`
      and the dot contains none of the name hints. */
  lemma NoNameHint(c: string, i: nat, j: nat)
    requires i < |NAME_HINTS[0]| && j < |NAME_HINTS[1]|
    requires NAME_HINTS[0][i] !in c && NAME_HINTS[1][j] !in c && '.' !in c
    ensures !Hinted(c, NAME_HINTS)
  {
    assert NAME_HINTS[2][1] == '.';
    MissingCharNotSubstring(NAME_HINTS[0], c, i);
    MissingCharNotSubstring(NAME_HINTS[1], c, j);
    MissingCharNotSubstring(NAME_HINTS[2], c, 1);
  }
}
