/** `scripts/extract_columns_weekly.py`: parse the required-column list and
    the rename map, rename the downloaded table's columns, insist that every
    required column is now present, and narrow the table to exactly those
    columns in the required order. */
module WeeklyExtract {

  import opened Results
  import opened Tables
  import opened ColumnLists

  /** `RENAME_MAP_JSON` after decoding: blank (so no renames), not valid
      JSON, valid JSON of some other shape, or an object of old -> new names. */
  datatype RenameConfig =
    | Unset
    | Undecodable
    | NotAnObject
    | Object(renames: map<string, string>)

  /** Why a run stops before writing its output. */
  datatype WeeklyError =
    | EmptyRequiredList
    | InvalidRenameJson
    | RenameMapNotObject
    | MissingRequired(missing: seq<string>, available: seq<string>)

  /** The renames a configuration asks for: none unless it is an object. */
  function RenamesOf(config: RenameConfig): map<string, string> {
    if config.Object? then config.renames else map[]
  }

  predicate RenameConfigUsable(config: RenameConfig) {
    config.Unset? || config.Object?
  }

  /** One run of the weekly extractor on an already downloaded table.
      The checks on the configuration come first and in the script's order;
      only then is the table touched, and it is renamed before the strict
      check and the narrowing. */
  function Extract(requiredCsv: string, config: RenameConfig, t: Table): (r: Result<Table, WeeklyError>)
    requires WellFormed(t)
    requires Distinct(RenameColumns(t.columns, RenamesOf(config)))
    ensures r == Err(EmptyRequiredList) <==> Parse(requiredCsv) == []
    ensures Parse(requiredCsv) != [] && config.Undecodable? ==> r == Err(InvalidRenameJson)
    ensures Parse(requiredCsv) != [] && config.NotAnObject? ==> r == Err(RenameMapNotObject)
    ensures r.Ok? ==> r.value.columns == Parse(requiredCsv) && |r.value.rows| == |t.rows|
    ensures Parse(requiredCsv) != [] && RenameConfigUsable(config) ==>
              r == SelectRequired(Parse(requiredCsv), RenameTable(t, RenamesOf(config)))
  {
    var required := Parse(requiredCsv);
    if required == [] then Err(EmptyRequiredList)
    else if config.Undecodable? then Err(InvalidRenameJson)
    else if config.NotAnObject? then Err(RenameMapNotObject)
    else SelectRequired(required, RenameTable(t, RenamesOf(config)))
  }

  /** The strict check and the narrowing, on the table as renamed: the run
      fails exactly when some required column is absent, reports those
      columns in required order together with the header it saw, and
      otherwise keeps exactly the required columns in the required order,
      every row, and each cell under its column name. */
  function SelectRequired(required: seq<string>, renamed: Table): (r: Result<Table, WeeklyError>)
    requires WellFormed(renamed)
    ensures r.Err? <==> exists c :: c in required && c !in renamed.columns
    ensures r.Err? ==>
              && r.error.MissingRequired?
              && r.error.available == renamed.columns
              && IsSubsequence(r.error.missing, required)
              && forall x :: multiset(r.error.missing)[x] == if x in renamed.columns then 0 else multiset(required)[x]
    ensures r.Ok? ==>
              && r.value.columns == required
              && |r.value.rows| == |renamed.rows|
              && Aligned(r.value)
              && forall i, k, j ::
                   (0 <= i < |renamed.rows| && 0 <= k < |required| && 0 <= j < |renamed.columns| &&
                    renamed.columns[j] == required[k]) ==> r.value.rows[i][k] == renamed.rows[i][j]
  {
    var missing := Missing(required, renamed.columns);
    if missing != [] then
      assert multiset(missing)[missing[0]] > 0;
      Err(MissingRequired(missing, renamed.columns))
    else
      assert forall c :: c in required ==> c in renamed.columns by {
        forall c | c in required
          ensures c in renamed.columns
        {
          assert multiset(missing)[c] == 0;
        }
      }
      Ok(Project(renamed, required))
  }

  /** Renames are applied before the presence check: a required column
      passes when a source column carries it and is not renamed away, or
      when some source column is renamed to it. With a usable configuration
      and a non-empty required list, the run succeeds exactly when every
      required column passes. */
  lemma ExtractSucceedsIff(requiredCsv: string, config: RenameConfig, t: Table)
    requires WellFormed(t)
    requires Distinct(RenameColumns(t.columns, RenamesOf(config)))
    ensures Extract(requiredCsv, config, t).Ok? <==>
              && Parse(requiredCsv) != []
              && RenameConfigUsable(config)
              && forall c :: c in Parse(requiredCsv) ==>
                   KeptUnder(t.columns, RenamesOf(config), c) || RenamedTo(t.columns, RenamesOf(config), c)
  {
    var required := Parse(requiredCsv);
    var m := RenamesOf(config);
    forall c | c in required
      ensures c in RenameColumns(t.columns, m) <==> KeptUnder(t.columns, m, c) || RenamedTo(t.columns, m, c)
    {
      RenamedMembership(t.columns, m, c);
    }
  }

  /** On success every output cell is the source cell of the same row whose
      column, once renamed, carries the output column's name. */
  lemma ExtractKeepsCells(requiredCsv: string, config: RenameConfig, t: Table)
    requires WellFormed(t)
    requires Distinct(RenameColumns(t.columns, RenamesOf(config)))
    ensures Extract(requiredCsv, config, t).Ok? ==>
              forall i, k, j ::
                (0 <= i < |t.rows| && 0 <= k < |Parse(requiredCsv)| && 0 <= j < |t.columns| &&
                 Renamed(RenamesOf(config), t.columns[j]) == Parse(requiredCsv)[k]) ==>
                  Extract(requiredCsv, config, t).value.rows[i][k] == t.rows[i][j]
  {
  }

  /** A malformed configuration is reported before any table work: the
      outcome does not depend on the table at all. */
  lemma ConfigErrorsIgnoreTable(requiredCsv: string, config: RenameConfig, t1: Table, t2: Table)
    requires WellFormed(t1) && Distinct(RenameColumns(t1.columns, RenamesOf(config)))
    requires WellFormed(t2) && Distinct(RenameColumns(t2.columns, RenamesOf(config)))
    requires Parse(requiredCsv) == [] || !RenameConfigUsable(config)
    ensures Extract(requiredCsv, config, t1) == Extract(requiredCsv, config, t2)
    ensures Extract(requiredCsv, config, t1).Err?
  {
  }

  /** Running the extractor again on its own output, with the same required
      list and no renames, gives that output back, provided the required
      names are distinct. */
  lemma ExtractIdempotent(requiredCsv: string, config: RenameConfig, t: Table)
    requires WellFormed(t)
    requires Distinct(RenameColumns(t.columns, RenamesOf(config)))
    requires Extract(requiredCsv, config, t).Ok?
    requires Distinct(Parse(requiredCsv))
    ensures WellFormed(Extract(requiredCsv, config, t).value)
    ensures Extract(requiredCsv, Unset, Extract(requiredCsv, config, t).value) == Extract(requiredCsv, config, t)
  {
    var required := Parse(requiredCsv);
    var renamed := RenameTable(t, RenamesOf(config));
    var out := Extract(requiredCsv, config, t).value;
    assert SelectRequired(required, renamed) == Ok(out);
    SelectRequiredOnOutput(required, renamed);
    RenameNothing(out);
  }

  /** Selecting distinct required columns from the selection's own output
      gives that output back. */
  lemma SelectRequiredOnOutput(required: seq<string>, renamed: Table)
    requires WellFormed(renamed) && Distinct(required)
    requires SelectRequired(required, renamed).Ok?
    ensures WellFormed(SelectRequired(required, renamed).value)
    ensures SelectRequired(required, SelectRequired(required, renamed).value) == SelectRequired(required, renamed)
  {
    assert forall c :: c in required ==> c in renamed.columns;
    var out := Project(renamed, required);
    assert SelectRequired(required, renamed) == Ok(out);
    assert Missing(required, out.columns) == [];
    ProjectTwice(renamed, required, required);
  }

  /** The renaming example: with `education_phase` renamed to
      `school_type`, a table holding `education_phase` and `pa_perc`
      satisfies a contract asking for `school_type` and `pa_perc`. */
  lemma RenameExample(rows: seq<Row>)
    requires forall i :: 0 <= i < |rows| ==> |rows[i]| == 2
    ensures var t := Table(["education_phase", "pa_perc"], rows);
            var r := SelectRequired(["school_type", "pa_perc"], RenameTable(t, map["education_phase" := "school_type"]));
            r.Ok? && r.value.columns == ["school_type", "pa_perc"] && r.value.rows == rows
  {
    var t := Table(["education_phase", "pa_perc"], rows);
    var m := map["education_phase" := "school_type"];
    var required := ["school_type", "pa_perc"];
    var renamed := RenameTable(t, m);
    assert renamed == Table(required, rows);
    var r := SelectRequired(required, renamed);
    assert Missing(required, renamed.columns) == [];
    forall i | 0 <= i < |rows|
      ensures r.value.rows[i] == rows[i]
    {
      assert r.value.rows[i][0] == rows[i][0];
      assert r.value.rows[i][1] == rows[i][1];
    }
  }

}
