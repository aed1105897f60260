/** The string operations the two fetch scripts lean on: Python's
    `str.strip()`, `str.split(",")`, `str.join` and `str.replace`. */
module Text {

  /** Python's `str.isspace()` for one character: the ASCII controls
      TAB..CR and FS..US, the space, and the Unicode white-space set. */
  predicate IsSpace(c: char) {
    || c == ' '
    || ('\t' <= c <= '\r')
    || ('\U{1C}' <= c <= '\U{1F}')
    || c == '\U{85}'
    || c == '\U{A0}'
    || c == '\U{1680}'
    || ('\U{2000}' <= c <= '\U{200A}')
    || c == '\U{2028}'
    || c == '\U{2029}'
    || c == '\U{202F}'
    || c == '\U{205F}'
    || c == '\U{3000}'
  }

  predicate AllSpace(s: string) {
    forall i :: 0 <= i < |s| ==> IsSpace(s[i])
  }

  /** Neither end of `s` is white space. */
  predicate IsStripped(s: string) {
    |s| == 0 || (!IsSpace(s[0]) && !IsSpace(s[|s| - 1]))
  }

  /** `r` sits in `s` at offset `i` with nothing but white space around it. */
  predicate SpaceAround(s: string, i: int, r: string) {
    && 0 <= i <= |s| - |r|
    && r == s[i..i + |r|]
    && (forall k :: 0 <= k < i ==> IsSpace(s[k]))
    && (forall k :: i + |r| <= k < |s| ==> IsSpace(s[k]))
  }

  /** The index of the first character of `s` at or after `i` that is not
      white space, or `|s|` when there is none. */
  function SkipSpace(s: string, i: nat): (j: nat)
    requires i <= |s|
    ensures i <= j <= |s|
    ensures forall k :: i <= k < j ==> IsSpace(s[k])
    ensures j < |s| ==> !IsSpace(s[j])
    decreases |s| - i
  {
    if i < |s| && IsSpace(s[i]) then SkipSpace(s, i + 1) else i
  }

  /** The end of `s[..j]` once the white space before `j`, down to `lo`, is
      cut away. */
  function BackSpace(s: string, lo: nat, j: nat): (e: nat)
    requires lo <= j <= |s|
    ensures lo <= e <= j
    ensures forall k :: e <= k < j ==> IsSpace(s[k])
    ensures lo < e ==> !IsSpace(s[e - 1])
    decreases j
  {
    if lo < j && IsSpace(s[j - 1]) then BackSpace(s, lo, j - 1) else j
  }

  /** `s.strip()`: the slice of `s` left once the white space at both ends
      is cut away. */
  function Strip(s: string): (r: string)
    ensures IsStripped(r)
    ensures exists i :: SpaceAround(s, i, r)
  {
    var a := SkipSpace(s, 0);
    var b := BackSpace(s, a, |s|);
    var r := s[a..b];
    assert SpaceAround(s, a, r);
    r
  }

  /** `Strip` is the only slice of `s` that has no white space at either end
      and nothing but white space around it. */
  lemma StripUnique(s: string, i: int, r: string)
    requires IsStripped(r) && SpaceAround(s, i, r)
    ensures Strip(s) == r
  {
    var a := SkipSpace(s, 0);
    var b := BackSpace(s, a, |s|);
    if |r| > 0 {
      assert s[i] == r[0] && s[i + |r| - 1] == r[|r| - 1];
    }
  }

  /** Stripping a string that has no white space at either end changes nothing. */
  lemma StripKeepsStripped(s: string)
    requires IsStripped(s)
    ensures Strip(s) == s
  {
  }

  /** `sep.join(parts)`. */
  function Join(parts: seq<string>, sep: string): string
  {
    if |parts| == 0 then ""
    else if |parts| == 1 then parts[0]
    else parts[0] + sep + Join(parts[1..], sep)
  }

  lemma JoinThree(a: string, b: string, c: string, sep: string)
    ensures Join([a, b, c], sep) == a + sep + b + sep + c
  {
    assert [a, b, c][1..] == [b, c];
    assert [b, c][1..] == [c];
    assert Join([b, c], sep) == b + sep + c;
    assert Join([a, b, c], sep) == a + sep + (b + sep + c);
  }

  /** `s.split(sep)` for a one-character separator: the pieces between
      consecutive separators, empty pieces included, so there is always one
      more piece than separators. */
  function Split(s: string, sep: char): (parts: seq<string>)
    ensures |parts| >= 1
    ensures forall i :: 0 <= i < |parts| ==> sep !in parts[i]
    ensures Join(parts, [sep]) == s
  {
    if |s| == 0 then [""]
    else
      var rest := Split(s[1..], sep);
      if s[0] == sep then [""] + rest
      else [[s[0]] + rest[0]] + rest[1..]
  }

  lemma {:induction false} SplitWithoutSeparator(p: string, sep: char)
    requires sep !in p
    ensures Split(p, sep) == [p]
    decreases |p|
  {
    if |p| > 0 {
      SplitWithoutSeparator(p[1..], sep);
      assert [p[0]] + p[1..] == p;
    }
  }

  lemma {:induction false} SplitAfterFirstPiece(p: string, tail: string, sep: char)
    requires sep !in p
    ensures Split(p + [sep] + tail, sep) == [p] + Split(tail, sep)
    decreases |p|
  {
    var s := p + [sep] + tail;
    if |p| == 0 {
      assert s[1..] == tail;
    } else {
      assert s[1..] == p[1..] + [sep] + tail;
      SplitAfterFirstPiece(p[1..], tail, sep);
      assert [p[0]] + p[1..] == p;
    }
  }

  /** Splitting a joined list gives the list back, provided no piece holds
      the separator. */
  lemma {:induction false} SplitJoin(parts: seq<string>, sep: char)
    requires |parts| >= 1
    requires forall i :: 0 <= i < |parts| ==> sep !in parts[i]
    ensures Split(Join(parts, [sep]), sep) == parts
    decreases |parts|
  {
    if |parts| == 1 {
      SplitWithoutSeparator(parts[0], sep);
    } else {
      SplitJoin(parts[1..], sep);
      SplitAfterFirstPiece(parts[0], Join(parts[1..], [sep]), sep);
      assert [parts[0]] + parts[1..] == parts;
    }
  }

  /** `pat in s` for a non-empty pattern. */
  predicate Occurs(pat: string, s: string) {
    exists i :: 0 <= i <= |s| - |pat| && OccursAt(pat, s, i)
  }

  predicate OccursAt(pat: string, s: string, i: int) {
    0 <= i <= |s| - |pat| && s[i..i + |pat|] == pat
  }

  lemma OccursInTail(pat: string, s: string)
    requires |pat| > 0 && |s| > 0
    ensures Occurs(pat, s[1..]) ==> Occurs(pat, s)
    ensures Occurs(pat, s) && s[..|pat|] != pat ==> Occurs(pat, s[1..])
  {
    if Occurs(pat, s[1..]) {
      var i :| 0 <= i <= |s| - 1 - |pat| && OccursAt(pat, s[1..], i);
      assert s[1..][i..i + |pat|] == s[i + 1..i + 1 + |pat|];
      assert OccursAt(pat, s, i + 1);
    }
    if Occurs(pat, s) && s[..|pat|] != pat {
      var i :| 0 <= i <= |s| - |pat| && OccursAt(pat, s, i);
      assert s[1..][i - 1..i - 1 + |pat|] == s[i..i + |pat|];
      assert OccursAt(pat, s[1..], i - 1);
    }
  }

  /** `s.replace(pat, rep)`: scanning from the left, every occurrence of
      `pat` that does not overlap an earlier replaced one becomes `rep`. */
  function ReplaceAll(s: string, pat: string, rep: string): string
    requires |pat| > 0
    decreases |s|
  {
    if |s| < |pat| then s
    else if s[..|pat|] == pat then rep + ReplaceAll(s[|pat|..], pat, rep)
    else [s[0]] + ReplaceAll(s[1..], pat, rep)
  }

  /** A text in which the pattern does not occur comes back unchanged. */
  lemma {:induction false} ReplaceWithoutOccurrence(s: string, pat: string, rep: string)
    requires |pat| > 0
    requires !Occurs(pat, s)
    ensures ReplaceAll(s, pat, rep) == s
    decreases |s|
  {
    if |s| >= |pat| {
      assert !OccursAt(pat, s, 0);
      assert s[..|pat|] != pat;
      OccursInTail(pat, s);
      ReplaceWithoutOccurrence(s[1..], pat, rep);
      assert [s[0]] + s[1..] == s;
    }
  }

  /** A replacement at least as long as the pattern never shortens the text,
      and once the pattern occurs the text grows by at least the difference
      in length (so strictly, when the replacement is strictly longer). */
  lemma {:induction false} ReplaceLengthens(s: string, pat: string, rep: string)
    requires 0 < |pat| <= |rep|
    ensures |s| <= |ReplaceAll(s, pat, rep)|
    ensures Occurs(pat, s) ==> |s| + |rep| - |pat| <= |ReplaceAll(s, pat, rep)|
    ensures Occurs(pat, s) && |pat| < |rep| ==> |s| < |ReplaceAll(s, pat, rep)|
    decreases |s|
  {
    if |s| >= |pat| {
      if s[..|pat|] == pat {
        ReplaceLengthens(s[|pat|..], pat, rep);
      } else {
        OccursInTail(pat, s);
        ReplaceLengthens(s[1..], pat, rep);
      }
    }
  }

  /** When the first character of `pat` does not recur in it, `pat` cannot
      start inside a non-empty `base` that it does not occur in and run on
      into a following copy of `pat`. */
  lemma NoOccurrenceAcrossBoundary(base: string, pat: string)
    requires |pat| > 0 && |base| > 0
    requires forall k :: 0 < k < |pat| ==> pat[k] != pat[0]
    requires !Occurs(pat, base)
    ensures (base + pat)[..|pat|] != pat
  {
    var s := base + pat;
    if |base| >= |pat| {
      assert s[..|pat|] == base[0..0 + |pat|];
      assert !OccursAt(pat, base, 0);
    } else {
      assert s[|base|] == pat[0];
      assert s[..|pat|][|base|] != pat[|base|];
    }
  }

  /** A text that starts with the pattern has it replaced and the scan goes
      on after it. */
  lemma ReplaceAtStart(pat: string, rep: string, tail: string)
    requires |pat| > 0
    ensures ReplaceAll(pat + tail, pat, rep) == rep + ReplaceAll(tail, pat, rep)
  {
    var s := pat + tail;
    assert s[..|pat|] == pat;
    assert s[|pat|..] == tail;
  }

  /** A text that does not start with the pattern keeps its first character
      and the scan goes on from the second. */
  lemma ReplaceSkipsFirst(s: string, pat: string, rep: string)
    requires 0 < |pat| <= |s|
    requires s[..|pat|] != pat
    ensures ReplaceAll(s, pat, rep) == [s[0]] + ReplaceAll(s[1..], pat, rep)
  {
  }

  /** A piece free of the pattern, then the pattern, then anything: the
      scan copies the piece, replaces that occurrence, and carries on with
      the rest. */
  lemma {:induction false} ReplaceAfterPiece(base: string, pat: string, rep: string, tail: string)
    requires |pat| > 0
    requires forall k :: 0 < k < |pat| ==> pat[k] != pat[0]
    requires !Occurs(pat, base)
    ensures ReplaceAll(base + pat + tail, pat, rep) == base + rep + ReplaceAll(tail, pat, rep)
    decreases |base|
  {
    if |base| == 0 {
      assert base + pat + tail == pat + tail;
      ReplaceAtStart(pat, rep, tail);
    } else {
      var after := ReplaceAll(tail, pat, rep);
      assert ReplaceAll(base[1..] + pat + tail, pat, rep) == base[1..] + rep + after by {
        OccursInTail(pat, base);
        ReplaceAfterPiece(base[1..], pat, rep, tail);
      }
      PieceStartsNoOccurrence(base, pat, rep, tail);
      assert [base[0]] + (base[1..] + rep + after) == base + rep + after;
    }
  }

  /** No occurrence starts at the first character of a non-empty
      pattern-free piece followed by the pattern. */
  lemma PieceStartsNoOccurrence(base: string, pat: string, rep: string, tail: string)
    requires |pat| > 0 && |base| > 0
    requires forall k :: 0 < k < |pat| ==> pat[k] != pat[0]
    requires !Occurs(pat, base)
    ensures ReplaceAll(base + pat + tail, pat, rep) == [base[0]] + ReplaceAll(base[1..] + pat + tail, pat, rep)
  {
    var s := base + pat + tail;
    NoOccurrenceAcrossBoundary(base, pat);
    assert s[..|pat|] == (base + pat)[..|pat|];
    ReplaceSkipsFirst(s, pat, rep);
    assert s[1..] == base[1..] + pat + tail;
  }

  /** `str.replace` replaces every occurrence: a text made of pattern-free
      pieces glued with the pattern comes out as the same pieces glued with
      the replacement, provided the pattern's first character does not recur
      in it (so occurrences cannot overlap a piece boundary). */
  lemma {:induction false} ReplaceJoin(parts: seq<string>, pat: string, rep: string)
    requires |pat| > 0
    requires forall k :: 0 < k < |pat| ==> pat[k] != pat[0]
    requires forall i :: 0 <= i < |parts| ==> !Occurs(pat, parts[i])
    ensures ReplaceAll(Join(parts, pat), pat, rep) == Join(parts, rep)
    decreases |parts|
  {
    if |parts| == 1 {
      ReplaceWithoutOccurrence(parts[0], pat, rep);
    } else if |parts| > 1 {
      ReplaceJoin(parts[1..], pat, rep);
      ReplaceAfterPiece(parts[0], pat, rep, Join(parts[1..], pat));
    }
  }

  /** When `pat` occurs in `base + pat` only at its end, replacing replaces
      exactly that trailing occurrence. */
  lemma ReplaceTrailingOccurrence(base: string, pat: string, rep: string)
    requires |pat| > 0
    requires forall k :: 0 < k < |pat| ==> pat[k] != pat[0]
    requires !Occurs(pat, base)
    ensures ReplaceAll(base + pat, pat, rep) == base + rep
  {
    ReplaceAfterPiece(base, pat, rep, "");
    assert base + pat + "" == base + pat;
  }

}
