/** `resolve_team_color`: the colour of a team looked up in the master teams table, with a
    default for every way the lookup can fail and for values that are not hex colours. */
module TeamColor {
  import opened Common
  import opened Text
  import opened Tables

  /** One cell of the teams table: its text as `str()` renders it, and its integer value
      when `to_numeric(errors="coerce")` reads one. */
  datatype Cell = Cell(text: string, number: Option<int>)

  /** The master teams table: its column names and its rows (a column missing from a row's
      map is a NaN cell). */
  datatype TeamTable = TeamTable(columns: seq<string>, rows: seq<map<string, Cell>>)

  /** Candidate names of the team id column, in order of preference. */
  const IdColumns: seq<string> := ["teamId", "id", "team_id"]

  /** Candidate names of the primary colour column, in order of preference. */
  const ColorColumns: seq<string> := ["color_primario", "primary_color", "team_color_hex"]

  /** A NaN cell: `str()` gives "nan" and it has no numeric value. */
  const MissingCell := Cell("nan", None)

  function CellAt(row: map<string, Cell>, col: string): Cell
  {
    if col in row then row[col] else MissingCell
  }

  /** The accepted shape of a colour: it starts with '#' and has 4 or 7 characters. */
  predicate IsHexColor(v: string)
  {
    (|v| == 4 || |v| == 7) && v[0] == '#'
  }

  /** Index of the first row whose `col` cell reads as the integer `id`. */
  function FirstRowWithId(rows: seq<map<string, Cell>>, col: string, id: int): (r: Option<nat>)
    ensures r.Some? ==> r.value < |rows| && CellAt(rows[r.value], col).number == Some(id)
    ensures r.Some? ==> forall j :: 0 <= j < r.value ==> CellAt(rows[j], col).number != Some(id)
    ensures r.None? <==> forall j :: 0 <= j < |rows| ==> CellAt(rows[j], col).number != Some(id)
  {
    if rows == [] then None
    else if CellAt(rows[0], col).number == Some(id) then Some(0)
    else
      var rest := FirstRowWithId(rows[1..], col, id);
      assert forall j :: 1 <= j < |rows| ==> rows[j] == rows[1..][j - 1];
      if rest.None? then None else Some(rest.value + 1)
  }

  /** The table lookup succeeds and yields `v`: there is a table, both an id column and a
      colour column are found, the team argument is numeric, some row carries that id, and
      `v` is the stripped text of the first such row's colour cell. */
  ghost predicate Lookup(table: Option<TeamTable>, teamArg: Option<real>, v: string)
  {
    table.Some? && ParseId(teamArg).Some? &&
    exists idCol, colorCol ::
      FirstPresent(table.value.columns, IdColumns, idCol) &&
      FirstPresent(table.value.columns, ColorColumns, colorCol) &&
      var i := FirstRowWithId(table.value.rows, idCol, ParseId(teamArg).value);
      i.Some? && v == Strip(CellAt(table.value.rows[i.value], colorCol).text)
  }

  /** `resolve_team_color(team_id, master_teams_df, default=default)`. */
  method ResolveTeamColor(teamArg: Option<real>, table: Option<TeamTable>, default: string)
    returns (color: string)
    ensures color != default ==> IsHexColor(color) && Lookup(table, teamArg, color)
    ensures forall v :: Lookup(table, teamArg, v) ==> color == if IsHexColor(v) then v else default
    ensures IsHexColor(default) ==> IsHexColor(color)
  {
    if table.None? {
      return default;
    }
    var mt := table.value;
    var idCol := Pick(mt.columns, IdColumns);
    var colorCol := Pick(mt.columns, ColorColumns);
    if idCol.None? || colorCol.None? {
      assert forall c :: !FirstPresent(mt.columns, IdColumns, c) || !FirstPresent(mt.columns, ColorColumns, c);
      return default;
    }
    var tid := ParseId(teamArg);
    if tid.None? {
      return default;
    }
    var row := FirstRowWithId(mt.rows, idCol.value, tid.value);
    forall a, b | FirstPresent(mt.columns, IdColumns, a) && FirstPresent(mt.columns, ColorColumns, b)
      ensures a == idCol.value && b == colorCol.value
    {
      FirstPresentUnique(mt.columns, IdColumns, a, idCol.value);
      FirstPresentUnique(mt.columns, ColorColumns, b, colorCol.value);
    }
    if row.None? {
      return default;
    }
    var v := Strip(CellAt(mt.rows[row.value], colorCol.value).text);
    assert Lookup(table, teamArg, v);
    color := if IsHexColor(v) then v else default;
  }
}
