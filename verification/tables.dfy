/** A parsed CSV table as the scripts see it through pandas: an ordered list
    of column names and rows of cells aligned with them, together with the
    column operations the scripts perform (filtering name lists, selecting
    columns, renaming columns, adding a blank column). */
module Tables {

  /** A cell read from the CSV, or the missing-value marker `pd.NA`. */
  datatype Cell = Value(text: string) | Blank

  type Row = seq<Cell>

  datatype Table = Table(columns: seq<string>, rows: seq<Row>)

  predicate Distinct<T(==)>(s: seq<T>) {
    forall i, j :: 0 <= i < j < |s| ==> s[i] != s[j]
  }

  /** Every row has one cell per column. */
  predicate Aligned(t: Table) {
    forall i :: 0 <= i < |t.rows| ==> |t.rows[i]| == |t.columns|
  }

  /** What `pd.read_csv` hands over: aligned rows and distinct column names
      (pandas renames repeated headers). */
  predicate WellFormed(t: Table) {
    Aligned(t) && Distinct(t.columns)
  }

  /** `a` can be obtained from `b` by deleting elements. */
  predicate IsSubsequence<T(==)>(a: seq<T>, b: seq<T>)
    decreases |b|
  {
    || |a| == 0
    || (|b| > 0 && ((a[0] == b[0] && IsSubsequence(a[1..], b[1..])) || IsSubsequence(a, b[1..])))
  }

  /** Deleting elements twice is deleting elements. */
  lemma {:induction false} SubsequenceTransitive<T>(a: seq<T>, b: seq<T>, c: seq<T>)
    requires IsSubsequence(a, b) && IsSubsequence(b, c)
    ensures IsSubsequence(a, c)
    decreases |c|
  {
    if |a| > 0 {
      if IsSubsequence(b, c[1..]) {
        SubsequenceTransitive(a, b, c[1..]);
      } else if a[0] == b[0] && IsSubsequence(a[1..], b[1..]) {
        SubsequenceTransitive(a[1..], b[1..], c[1..]);
      } else {
        SubsequenceTransitive(a, b[1..], c[1..]);
      }
    }
  }

  // The three list comprehensions over column names. Each result is stated
  // apart from its recursion: a subsequence of the input that holds every
  // occurrence of the selected names and no other name.

  /** The names, in order, that are not available. */
  function Missing(names: seq<string>, available: seq<string>): (r: seq<string>)
    ensures IsSubsequence(r, names)
    ensures forall x :: multiset(r)[x] == if x in available then 0 else multiset(names)[x]
  {
    if |names| == 0 then []
    else
      assert names == [names[0]] + names[1..];
      if names[0] in available then Missing(names[1..], available)
      else [names[0]] + Missing(names[1..], available)
  }

  /** The names, in order, that are available. */
  function Present(names: seq<string>, available: seq<string>): (r: seq<string>)
    ensures IsSubsequence(r, names)
    ensures forall x :: multiset(r)[x] == if x in available then multiset(names)[x] else 0
  {
    if |names| == 0 then []
    else
      assert names == [names[0]] + names[1..];
      if names[0] in available then [names[0]] + Present(names[1..], available)
      else Present(names[1..], available)
  }

  /** The names, in order, other than `name`. */
  function Without(names: seq<string>, name: string): (r: seq<string>)
    ensures IsSubsequence(r, names)
    ensures forall x :: multiset(r)[x] == if x == name then 0 else multiset(names)[x]
  {
    if |names| == 0 then []
    else
      assert names == [names[0]] + names[1..];
      if names[0] == name then Without(names[1..], name)
      else [names[0]] + Without(names[1..], name)
  }

  /** Dropping a name that does not occur changes nothing. */
  lemma {:induction false} WithoutAbsent(names: seq<string>, name: string)
    requires name !in names
    ensures Without(names, name) == names
    decreases |names|
  {
    if |names| > 0 {
      WithoutAbsent(names[1..], name);
      assert [names[0]] + names[1..] == names;
    }
  }

  /** When every name other than `exempt` is available, the available names
      are all of them, less `exempt` exactly when `exempt` is unavailable. */
  lemma {:induction false} PresentWithExemption(names: seq<string>, exempt: string, available: seq<string>)
    requires Missing(Without(names, exempt), available) == []
    ensures Present(names, available) == if exempt in available then names else Without(names, exempt)
    decreases |names|
  {
    if |names| > 0 {
      var n, rest := names[0], names[1..];
      assert names == [n] + rest;
      if n == exempt {
        assert Without(names, exempt) == Without(rest, exempt);
        PresentWithExemption(rest, exempt, available);
      } else {
        var w := Without(rest, exempt);
        assert Without(names, exempt) == [n] + w;
        assert ([n] + w)[1..] == w;
        assert Missing([n] + w, available) ==
                 if n in available then Missing(w, available) else [n] + Missing(w, available);
        PresentWithExemption(rest, exempt, available);
        assert Present(names, available) == [n] + Present(rest, available);
      }
    }
  }

  /** The position of the first column called `name`. */
  function IndexOf(columns: seq<string>, name: string): (k: nat)
    requires name in columns
    ensures k < |columns| && columns[k] == name
    ensures forall m :: 0 <= m < k ==> columns[m] != name
  {
    if columns[0] == name then 0 else 1 + IndexOf(columns[1..], name)
  }

  /** The cells of `row`, laid out under `columns`, that sit under `names`,
      in the order of `names`. */
  function SelectCells(row: Row, columns: seq<string>, names: seq<string>): (r: Row)
    requires |row| == |columns| && Distinct(columns)
    requires forall n :: n in names ==> n in columns
    ensures |r| == |names|
    ensures forall k, j :: 0 <= k < |names| && 0 <= j < |columns| && columns[j] == names[k] ==> r[k] == row[j]
  {
    if |names| == 0 then []
    else [row[IndexOf(columns, names[0])]] + SelectCells(row, columns, names[1..])
  }

  function SelectRows(rows: seq<Row>, columns: seq<string>, names: seq<string>): (r: seq<Row>)
    requires forall i :: 0 <= i < |rows| ==> |rows[i]| == |columns|
    requires Distinct(columns)
    requires forall n :: n in names ==> n in columns
    ensures |r| == |rows|
    ensures forall i :: 0 <= i < |rows| ==> r[i] == SelectCells(rows[i], columns, names)
  {
    if |rows| == 0 then []
    else [SelectCells(rows[0], columns, names)] + SelectRows(rows[1..], columns, names)
  }

  /** `df[names]`: the table narrowed to the named columns, in the order the
      names are given. Every row survives, and each kept cell is the cell
      that stood under the same column name. */
  function Project(t: Table, names: seq<string>): (r: Table)
    requires WellFormed(t)
    requires forall n :: n in names ==> n in t.columns
    ensures r.columns == names
    ensures |r.rows| == |t.rows| && Aligned(r)
    ensures Distinct(names) ==> WellFormed(r)
    ensures forall i, k, j :: 0 <= i < |t.rows| && 0 <= k < |names| && 0 <= j < |t.columns| && t.columns[j] == names[k] ==>
              r.rows[i][k] == t.rows[i][j]
  {
    Table(names, SelectRows(t.rows, t.columns, names))
  }

  /** Narrowing to `a` and then to names taken from `a` is narrowing
      straight to the latter. */
  lemma ProjectTwice(t: Table, a: seq<string>, b: seq<string>)
    requires WellFormed(t) && Distinct(a)
    requires forall n :: n in a ==> n in t.columns
    requires forall n :: n in b ==> n in a
    ensures Project(Project(t, a), b) == Project(t, b)
  {
    var p := Project(t, a);
    var q := Project(p, b);
    var r := Project(t, b);
    forall i | 0 <= i < |t.rows|
      ensures q.rows[i] == r.rows[i]
    {
      forall k | 0 <= k < |b|
        ensures q.rows[i][k] == r.rows[i][k]
      {
        var m := IndexOf(a, b[k]);
        var j := IndexOf(t.columns, b[k]);
        assert q.rows[i][k] == p.rows[i][m];
        assert p.rows[i][m] == t.rows[i][j];
      }
    }
  }

  /** The new name of column `name` under `df.rename(columns=renames)`:
      a name the map does not mention keeps its name. */
  function Renamed(renames: map<string, string>, name: string): string {
    if name in renames then renames[name] else name
  }

  /** The column names after `df.rename(columns=renames)`: each column is
      renamed on its own, in place, with no chaining of renames. */
  function RenameColumns(columns: seq<string>, renames: map<string, string>): (r: seq<string>)
    ensures |r| == |columns|
    ensures forall i :: 0 <= i < |columns| ==> r[i] == Renamed(renames, columns[i])
  {
    if |columns| == 0 then []
    else [Renamed(renames, columns[0])] + RenameColumns(columns[1..], renames)
  }

  /** `name` is a column once some column carries it and the map leaves
      that column alone. */
  predicate KeptUnder(columns: seq<string>, renames: map<string, string>, name: string) {
    name in columns && name !in renames
  }

  /** Some column is renamed to `name`. */
  predicate RenamedTo(columns: seq<string>, renames: map<string, string>, name: string) {
    exists src :: src in columns && src in renames && renames[src] == name
  }

  /** After renaming, a name is in the header exactly when a column kept it
      or a column was renamed to it. */
  lemma RenamedMembership(columns: seq<string>, renames: map<string, string>, name: string)
    ensures name in RenameColumns(columns, renames) <==>
              KeptUnder(columns, renames, name) || RenamedTo(columns, renames, name)
  {
    var r := RenameColumns(columns, renames);
    if name in r {
      var i :| 0 <= i < |r| && r[i] == name;
      if columns[i] in renames {
        assert RenamedTo(columns, renames, name);
      }
    }
    if RenamedTo(columns, renames, name) {
      var src :| src in columns && src in renames && renames[src] == name;
      var i :| 0 <= i < |columns| && columns[i] == src;
      assert r[i] == name;
    }
    if KeptUnder(columns, renames, name) {
      var i :| 0 <= i < |columns| && columns[i] == name;
      assert r[i] == name;
    }
  }

  /** `df.rename(columns=renames)`: only the header changes. Each column is
      renamed where it stands, and afterwards a name is a column exactly when
      some column kept it or was renamed to it. */
  function RenameTable(t: Table, renames: map<string, string>): (r: Table)
    ensures r.rows == t.rows
    ensures |r.columns| == |t.columns|
    ensures forall i :: 0 <= i < |t.columns| ==> r.columns[i] == Renamed(renames, t.columns[i])
    ensures forall name :: name in r.columns <==> KeptUnder(t.columns, renames, name) || RenamedTo(t.columns, renames, name)
    ensures Aligned(t) ==> Aligned(r)
  {
    var columns := RenameColumns(t.columns, renames);
    assert forall name :: name in columns <==> KeptUnder(t.columns, renames, name) || RenamedTo(t.columns, renames, name) by {
      forall name {
        RenamedMembership(t.columns, renames, name);
      }
    }
    Table(columns, t.rows)
  }

  /** An empty rename map leaves the table as it is. */
  lemma RenameNothing(t: Table)
    ensures RenameTable(t, map[]) == t
  {
    var r := RenameTable(t, map[]);
    assert forall i :: 0 <= i < |t.columns| ==> r.columns[i] == Renamed(map[], t.columns[i]);
    assert r.columns == t.columns;
  }

  /** The blank back-fill of a column: the column is present afterwards;
      when it was absent it is appended as the last column, blank in every
      row, and nothing else changes. */
  function EnsureColumn(t: Table, name: string): (r: Table)
    requires Aligned(t)
    ensures Aligned(r) && |r.rows| == |t.rows|
    ensures name in r.columns
    ensures name in t.columns ==> r == t
    ensures name !in t.columns ==>
              && r.columns == t.columns + [name]
              && forall i :: 0 <= i < |t.rows| ==> r.rows[i] == t.rows[i] + [Blank]
  {
    if name in t.columns then t
    else Table(t.columns + [name], seq(|t.rows|, i requires 0 <= i < |t.rows| => t.rows[i] + [Blank]))
  }

}
