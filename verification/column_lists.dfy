/** The comma-separated column lists both scripts take from their
    environment (`KEEP_COLS`, `REQUIRED_COLUMNS_CSV`). */
module ColumnLists {

  import opened Text
  import opened Tables

  /** A well-formed entry of a parsed list: non-empty, with no white space at
      either end and no comma inside. */
  predicate IsColumnName(name: string) {
    name != "" && IsStripped(name) && NoComma(name)
  }

  predicate NoComma(s: string) {
    ',' !in s
  }

  /** The list text cut at its commas, each piece stripped of white space and
      the blank pieces dropped; the surviving names keep their order. */
  function Parse(s: string): (names: seq<string>)
    ensures forall name :: name in names ==> IsColumnName(name)
    ensures |names| <= |Split(s, ',')|
    ensures IsSubsequence(names, StripEach(Split(s, ',')))
    ensures forall x :: multiset(names)[x] == if x == "" then 0 else multiset(StripEach(Split(s, ',')))[x]
  {
    StrippedNonBlankSelects(Split(s, ','));
    StrippedNonBlank(Split(s, ','))
  }

  /** A blank list text, the empty string included, parses to no names. */
  lemma ParseBlank(s: string)
    requires AllSpace(s)
    ensures Parse(s) == []
  {
    BlankPiecesOfBlankText(s);
  }

  /** Every piece of a blank text is blank. */
  lemma BlankPiecesOfBlankText(s: string)
    requires AllSpace(s)
    ensures forall i :: 0 <= i < |Split(s, ',')| ==> Strip(Split(s, ',')[i]) == ""
    decreases |s|
  {
    if |s| > 0 {
      BlankPiecesOfBlankText(s[1..]);
      var rest := Split(s[1..], ',');
      assert s[0] != ',';
      var first := [s[0]] + rest[0];
      assert AllSpace(first);
      StripOfBlank(first);
    } else {
      StripOfBlank("");
    }
  }

  lemma StripOfBlank(s: string)
    requires AllSpace(s)
    ensures Strip(s) == ""
  {
    var r := Strip(s);
    var i :| SpaceAround(s, i, r);
  }

  /** A stripped piece is a slice of the piece, so it holds no comma the
      piece did not hold. */
  lemma StripKeepsOutComma(p: string)
    ensures NoComma(p) ==> NoComma(Strip(p))
  {
    var r := Strip(p);
    var i :| SpaceAround(p, i, r);
    forall k | 0 <= k < |r|
      ensures r[k] == p[i + k]
    {
    }
  }

  lemma NamesHaveNoComma(names: seq<string>)
    requires forall name :: name in names ==> IsColumnName(name)
    ensures forall i :: 0 <= i < |names| ==> ',' !in names[i]
  {
    forall i | 0 <= i < |names|
      ensures ',' !in names[i]
    {
      assert names[i] in names;
    }
  }

  /** Every piece, stripped, in order. */
  function StripEach(pieces: seq<string>): (r: seq<string>)
    ensures |r| == |pieces|
    ensures forall i :: 0 <= i < |pieces| ==> r[i] == Strip(pieces[i])
  {
    if |pieces| == 0 then [] else [Strip(pieces[0])] + StripEach(pieces[1..])
  }

  /** The non-blank stripped pieces, in their original order. */
  function StrippedNonBlank(pieces: seq<string>): (names: seq<string>)
    ensures forall name :: name in names ==> name != "" && IsStripped(name)
    ensures (forall p :: p in pieces ==> NoComma(p)) ==> forall name :: name in names ==> NoComma(name)
    ensures |names| <= |pieces|
    ensures (forall i :: 0 <= i < |pieces| ==> Strip(pieces[i]) == "") ==> names == []
  {
    if |pieces| == 0 then []
    else
      var c := Strip(pieces[0]);
      StripKeepsOutComma(pieces[0]);
      (if c != "" then [c] else []) + StrippedNonBlank(pieces[1..])
  }

  /** The non-blank stripped pieces form a subsequence of the stripped pieces
      that holds every occurrence of each non-empty one and no empty one. */
  lemma {:induction false} StrippedNonBlankSelects(pieces: seq<string>)
    ensures IsSubsequence(StrippedNonBlank(pieces), StripEach(pieces))
    ensures forall x :: multiset(StrippedNonBlank(pieces))[x] == if x == "" then 0 else multiset(StripEach(pieces))[x]
    decreases |pieces|
  {
    if |pieces| > 0 {
      var c := Strip(pieces[0]);
      var rest := StrippedNonBlank(pieces[1..]);
      var stripped := StripEach(pieces);
      StrippedNonBlankSelects(pieces[1..]);
      assert stripped == [c] + StripEach(pieces[1..]);
      assert stripped[1..] == StripEach(pieces[1..]);
      assert multiset(stripped) == multiset([c]) + multiset(StripEach(pieces[1..]));
      if c != "" {
        var names := [c] + rest;
        assert StrippedNonBlank(pieces) == names;
        assert names[1..] == rest;
        assert multiset(names) == multiset([c]) + multiset(rest);
      } else {
        assert StrippedNonBlank(pieces) == rest;
      }
    }
  }

  /** Joining well-formed names with commas and parsing the text gives the
      names back: the parse is the inverse of writing the list out. */
  lemma {:induction false} ParseJoin(names: seq<string>)
    requires forall name :: name in names ==> IsColumnName(name)
    ensures Parse(Join(names, ",")) == names
  {
    if |names| == 0 {
      assert Join(names, ",") == "";
      assert AllSpace("");
    } else {
      NamesHaveNoComma(names);
      SplitJoin(names, ',');
      assert Join(names, ",") == Join(names, [',']);
      StrippedNonBlankOfNames(names);
    }
  }

  lemma {:induction false} StrippedNonBlankOfNames(names: seq<string>)
    requires forall name :: name in names ==> IsColumnName(name)
    ensures StrippedNonBlank(names) == names
    decreases |names|
  {
    if |names| > 0 {
      assert IsColumnName(names[0]);
      StripKeepsStripped(names[0]);
      var rest := names[1..];
      StrippedNonBlankOfNames(rest);
      assert StrippedNonBlank(names) == [names[0]] + StrippedNonBlank(rest);
      assert [names[0]] + rest == names;
    }
  }

}
