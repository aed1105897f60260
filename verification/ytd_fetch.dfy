/** `scripts/fetch_dfe.py`: narrow the downloaded year-to-date table to the
    optional keep-list, tolerating an absent `pa_perc`, make sure `pa_perc`
    exists, rename `education_phase` to `school_type`, and name the dated
    snapshot file. */
module YtdFetch {

  import opened Results
  import opened Tables
  import opened ColumnLists
  import Text

  /** The one column allowed to be missing from the source; it is added
      back blank when absent. */
  const PaPerc: string := "pa_perc"
  const EducationPhase: string := "education_phase"
  const SchoolType: string := "school_type"

  /** The rename applied after narrowing. */
  const PhaseRename: map<string, string> := map[EducationPhase := SchoolType]

  /** The run stops and names the kept columns, other than `pa_perc`, that
      the source lacks. */
  datatype FetchError = MissingFromSource(missing: seq<string>)

  /** `KEEP_COLS` parsed as a comma-separated list; an empty setting means
      no list. The guard on the empty setting agrees with parsing it. */
  function ParseKeepList(keepCsv: string): (keep: seq<string>)
    ensures keep == Parse(keepCsv)
    ensures forall name :: name in keep ==> IsColumnName(name)
  {
    if keepCsv == "" then
      ParseBlank(keepCsv);
      []
    else
      Parse(keepCsv)
  }

  /** The presence check and the narrowing. With no keep-list the table is
      left whole. Otherwise the run fails exactly when some kept column other
      than `pa_perc` is absent, reporting those columns in keep-list order;
      and on success the header is the keep-list, less `pa_perc` when the
      source lacks it, and each kept cell is the source cell under the same
      column name. */
  function Narrow(t: Table, keep: seq<string>): (r: Result<Table, FetchError>)
    requires WellFormed(t)
    ensures r.Err? <==> keep != [] && exists c :: c in keep && c != PaPerc && c !in t.columns
    ensures r.Err? ==>
              && IsSubsequence(r.error.missing, keep)
              && forall x :: multiset(r.error.missing)[x] ==
                   if x == PaPerc || x in t.columns then 0 else multiset(keep)[x]
    ensures r.Ok? ==> Aligned(r.value) && |r.value.rows| == |t.rows|
    ensures r.Ok? && keep == [] ==> r.value == t
    ensures r.Ok? && keep != [] ==>
              r.value.columns == if PaPerc in t.columns then keep else Without(keep, PaPerc)
    ensures r.Ok? ==>
              forall i, k, j ::
                (0 <= i < |t.rows| && 0 <= k < |r.value.columns| && 0 <= j < |t.columns| &&
                 t.columns[j] == r.value.columns[k]) ==> r.value.rows[i][k] == t.rows[i][j]
  {
    if keep == [] then Ok(t)
    else
      var required := Without(keep, PaPerc);
      var missing := Missing(required, t.columns);
      if missing != [] then
        assert multiset(missing)[missing[0]] > 0;
        SubsequenceTransitive(missing, required, keep);
        Err(MissingFromSource(missing))
      else
        assert forall c :: c in keep && c != PaPerc ==> c in t.columns by {
          forall c | c in keep && c != PaPerc
            ensures c in t.columns
          {
            assert multiset(missing)[c] == 0;
          }
        }
        PresentWithExemption(keep, PaPerc, t.columns);
        Ok(Project(t, Present(keep, t.columns)))
  }

  /** Narrowing followed by the `pa_perc` back-fill: the table as it stands
      just before the rename. It fails with narrowing's report, and every
      cell it keeps is the source cell under the same column name, except
      for a source `pa_perc` that a keep-list dropped and the back-fill
      replaced with blanks. */
  function Prepare(t: Table, keep: seq<string>): (r: Result<Table, FetchError>)
    requires WellFormed(t)
    ensures r.Err? <==> Narrow(t, keep).Err?
    ensures r.Err? ==> r.error == Narrow(t, keep).error
    ensures r.Ok? ==> PaPerc in r.value.columns && Aligned(r.value) && |r.value.rows| == |t.rows|
    ensures r.Ok? ==>
              forall i, k, j ::
                (0 <= i < |t.rows| && 0 <= k < |r.value.columns| && 0 <= j < |t.columns| &&
                 t.columns[j] == r.value.columns[k] && (t.columns[j] != PaPerc || keep == [] || PaPerc in keep)) ==>
                  r.value.rows[i][k] == t.rows[i][j]
  {
    match Narrow(t, keep)
    case Err(e) => Err(e)
    case Ok(narrowed) =>
      BackfillKeepsCells(t, keep, narrowed);
      Ok(EnsureColumn(narrowed, PaPerc))
  }

  /** The back-fill only ever overwrites a source `pa_perc` that a keep-list
      left out. */
  lemma BackfillKeepsCells(t: Table, keep: seq<string>, narrowed: Table)
    requires WellFormed(t)
    requires Narrow(t, keep) == Ok(narrowed)
    ensures var r := EnsureColumn(narrowed, PaPerc);
            forall i, k, j ::
              (0 <= i < |t.rows| && 0 <= k < |r.columns| && 0 <= j < |t.columns| &&
               t.columns[j] == r.columns[k] && (t.columns[j] != PaPerc || keep == [] || PaPerc in keep)) ==>
                r.rows[i][k] == t.rows[i][j]
  {
  }

  /** One run of the year-to-date fetcher on an already downloaded table.
      It fails exactly when a keep-list is given and some kept column other
      than `pa_perc` is absent, and never because of `pa_perc`; the report
      lists exactly those columns in keep-list order; on success
      `pa_perc` is a column and every row survives. */
  function Fetch(keepCsv: string, t: Table): (r: Result<Table, FetchError>)
    requires WellFormed(t)
    ensures r.Err? <==> Parse(keepCsv) != [] && exists c :: c in Parse(keepCsv) && c != PaPerc && c !in t.columns
    ensures r.Err? ==> PaPerc !in r.error.missing
    ensures r.Err? ==>
              && IsSubsequence(r.error.missing, Parse(keepCsv))
              && forall x :: multiset(r.error.missing)[x] ==
                   if x == PaPerc || x in t.columns then 0 else multiset(Parse(keepCsv))[x]
    ensures r.Ok? ==> PaPerc in r.value.columns && Aligned(r.value) && |r.value.rows| == |t.rows|
  {
    var keep := ParseKeepList(keepCsv);
    match Prepare(t, keep)
    case Err(e) =>
      assert multiset(e.missing)[PaPerc] == 0;
      Err(e)
    case Ok(prepared) =>
      var r := RenameTable(prepared, PhaseRename);
      assert r.columns[IndexOf(prepared.columns, PaPerc)] == PaPerc;
      Ok(r)
  }

  /** The rename happens last and touches one name: the output is the
      prepared table with `education_phase` read as `school_type` wherever
      it stands, every other name and every row as they were. */
  lemma FetchRenamesLast(keepCsv: string, t: Table)
    requires WellFormed(t)
    ensures Fetch(keepCsv, t).Ok? <==> Prepare(t, Parse(keepCsv)).Ok?
    ensures Fetch(keepCsv, t).Ok? ==>
              var pre := Prepare(t, Parse(keepCsv)).value;
              var out := Fetch(keepCsv, t).value;
              && out.rows == pre.rows
              && |out.columns| == |pre.columns|
              && forall i :: 0 <= i < |pre.columns| ==>
                   out.columns[i] == if pre.columns[i] == EducationPhase then SchoolType else pre.columns[i]
  {
  }

  /** Because the check runs before the rename, a keep-list must name
      `education_phase`, not `school_type`: asking for `school_type` fails
      when the source only has `education_phase`. */
  lemma FetchChecksBeforeRename(keep: seq<string>, t: Table)
    requires WellFormed(t)
    requires SchoolType in keep && SchoolType !in t.columns
    ensures Narrow(t, keep).Err? && SchoolType in Narrow(t, keep).error.missing
  {
    var m := Narrow(t, keep).error.missing;
    assert multiset(keep)[SchoolType] > 0;
    assert multiset(m)[SchoolType] > 0;
  }

  /** The header before the rename. With a keep-list it is the keep-list
      itself when `pa_perc` is kept and present, and otherwise the keep-list
      without `pa_perc` followed by `pa_perc`; so a source `pa_perc` that the
      keep-list does not name is dropped and comes back blank. Without a
      keep-list it is the source header, with `pa_perc` appended if absent. */
  lemma PreparedColumns(t: Table, keep: seq<string>)
    requires WellFormed(t)
    requires Prepare(t, keep).Ok?
    ensures keep != [] ==>
              Prepare(t, keep).value.columns ==
                if PaPerc in keep && PaPerc in t.columns then keep else Without(keep, PaPerc) + [PaPerc]
    ensures keep == [] ==>
              Prepare(t, keep).value.columns ==
                if PaPerc in t.columns then t.columns else t.columns + [PaPerc]
  {
    var narrowed := Narrow(t, keep).value;
    if keep != [] {
      if PaPerc !in keep {
        WithoutAbsent(keep, PaPerc);
      } else if PaPerc !in t.columns {
        assert multiset(Without(keep, PaPerc))[PaPerc] == 0;
      }
    }
  }

  /** When the prepared table had to gain `pa_perc`, it is the last column
      and blank in every row, and every other cell is the narrowed table's. */
  lemma BackfilledPaPercIsBlank(t: Table, keep: seq<string>)
    requires WellFormed(t)
    requires !(PaPerc in t.columns && (keep == [] || PaPerc in keep))
    ensures Prepare(t, keep).Ok? ==>
              var pre := Prepare(t, keep).value;
              && |pre.columns| > 0
              && pre.columns[|pre.columns| - 1] == PaPerc
              && (forall i :: 0 <= i < |pre.rows| ==>
                    |pre.rows[i]| > 0 && pre.rows[i][|pre.rows[i]| - 1] == Blank)
              && var narrowed := Narrow(t, keep).value;
                 |pre.columns| == |narrowed.columns| + 1
                 && forall i, k :: 0 <= i < |pre.rows| && 0 <= k < |narrowed.columns| ==>
                      pre.rows[i][k] == narrowed.rows[i][k]
  {
    if Narrow(t, keep).Ok? {
      var narrowed := Narrow(t, keep).value;
      if keep != [] && PaPerc !in t.columns {
        assert multiset(Without(keep, PaPerc))[PaPerc] == 0;
      }
      assert PaPerc !in narrowed.columns;
    }
  }

  /** With no keep-list the run always succeeds and every source column
      survives, `education_phase` under its new name; each row is the
      source row, with a blank `pa_perc` cell appended if the source had
      no `pa_perc`. */
  lemma FetchWithoutKeepList(keepCsv: string, t: Table)
    requires WellFormed(t)
    requires Parse(keepCsv) == []
    ensures Fetch(keepCsv, t).Ok?
    ensures forall c :: c in t.columns ==> Renamed(PhaseRename, c) in Fetch(keepCsv, t).value.columns
    ensures forall i :: 0 <= i < |t.rows| ==>
              Fetch(keepCsv, t).value.rows[i] == if PaPerc in t.columns then t.rows[i] else t.rows[i] + [Blank]
  {
    var pre := EnsureColumn(t, PaPerc);
    var out := RenameTable(pre, PhaseRename);
    FetchOfPrepared(keepCsv, t, pre);
    forall c | c in t.columns
      ensures Renamed(PhaseRename, c) in out.columns
    {
      var j := IndexOf(t.columns, c);
      assert pre.columns[j] == c;
      assert out.columns[j] == Renamed(PhaseRename, c);
    }
  }

  lemma FetchOfPrepared(keepCsv: string, t: Table, pre: Table)
    requires WellFormed(t)
    requires Prepare(t, Parse(keepCsv)) == Ok(pre)
    ensures Fetch(keepCsv, t) == Ok(RenameTable(pre, PhaseRename))
  {
  }

  /** The exemption example: a source with only `school_type`, kept with
      `pa_perc`, passes and gains a blank `pa_perc` column. */
  lemma ExemptExample(rows: seq<Row>)
    requires forall i :: 0 <= i < |rows| ==> |rows[i]| == 1
    ensures var r := Prepare(Table([SchoolType], rows), [SchoolType, PaPerc]);
            && r.Ok?
            && r.value.columns == [SchoolType, PaPerc]
            && forall i :: 0 <= i < |rows| ==> r.value.rows[i] == rows[i] + [Blank]
  {
    var t := Table([SchoolType], rows);
    var keep := [SchoolType, PaPerc];
    assert Without(keep, PaPerc) == [SchoolType];
    assert Missing([SchoolType], t.columns) == [];
    var narrowed := Narrow(t, keep).value;
    assert narrowed.columns == [SchoolType];
    forall i | 0 <= i < |rows|
      ensures narrowed.rows[i] == rows[i]
    {
      assert narrowed.rows[i][0] == rows[i][0];
    }
  }

  /** The dated snapshot's file name: every `.csv` in the output name
      becomes `_<stamp>.csv`. The name never gets shorter, and it differs
      from the output name exactly when the output name contains `.csv`;
      otherwise both files get the same name. */
  function SnapshotName(outputName: string, stamp: string): (r: string)
    ensures |outputName| <= |r|
    ensures r == outputName <==> !Text.Occurs(".csv", outputName)
  {
    var rep := "_" + stamp + ".csv";
    if Text.Occurs(".csv", outputName) then
      Text.ReplaceLengthens(outputName, ".csv", rep);
      Text.ReplaceAll(outputName, ".csv", rep)
    else
      Text.ReplaceLengthens(outputName, ".csv", rep);
      Text.ReplaceWithoutOccurrence(outputName, ".csv", rep);
      Text.ReplaceAll(outputName, ".csv", rep)
  }

  /** Every `.csv` is stamped: a name made of `.csv`-free pieces joined by
      `.csv` becomes the same pieces joined by `_<stamp>.csv`. */
  lemma SnapshotStampsEveryCsv(parts: seq<string>, stamp: string)
    requires forall i :: 0 <= i < |parts| ==> !Text.Occurs(".csv", parts[i])
    ensures SnapshotName(Text.Join(parts, ".csv"), stamp) == Text.Join(parts, "_" + stamp + ".csv")
  {
    var pat := ".csv";
    assert forall k :: 0 < k < |pat| ==> pat[k] != pat[0];
    Text.ReplaceJoin(parts, pat, "_" + stamp + ".csv");
  }

  /** A name with two `.csv`s gets two stamps. */
  lemma DoubleCsvExample(stamp: string)
    ensures SnapshotName("a.csv.csv", stamp) == "a_" + stamp + ".csv_" + stamp + ".csv"
  {
    var parts := ["a", "", ""];
    var sep := "_" + stamp + ".csv";
    Text.JoinThree("a", "", "", ".csv");
    Text.JoinThree("a", "", "", sep);
    assert "a" + ".csv" + "" + ".csv" + "" == "a.csv.csv";
    assert "a" + sep + "" + sep + "" == "a_" + stamp + ".csv_" + stamp + ".csv";
    SnapshotStampsEveryCsv(parts, stamp);
  }

  /** For a name that ends in its only `.csv`, the stamp goes just before
      the extension. */
  lemma SnapshotOfCsvName(base: string, stamp: string)
    requires !Text.Occurs(".csv", base)
    ensures SnapshotName(base + ".csv", stamp) == base + "_" + stamp + ".csv"
  {
    var pat := ".csv";
    assert forall k :: 0 < k < |pat| ==> pat[k] != pat[0];
    Text.ReplaceTrailingOccurrence(base, pat, "_" + stamp + ".csv");
  }

}
