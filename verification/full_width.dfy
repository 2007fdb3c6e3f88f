/** `WIDE_MAP` and `widen`: printable ASCII to its full-width form, the
    space to the ideographic space, every other code point unchanged. */
module FullWidth {
  import opened Codepoints

  const IDEOGRAPHIC_SPACE: CodePoint := 0x3000
  /** Distance from a printable ASCII code point to its full-width form. */
  const WIDE_OFFSET: int := 0xFEE0

  /** The translation table, built as the source builds it: 0x21 .. 0x7E
      shifted by 0xFEE0, then the space added. */
  const WIDE_MAP: map<CodePoint, CodePoint> :=
    (map c: CodePoint | 0x21 <= c < 0x7F :: c + WIDE_OFFSET)[SPACE := IDEOGRAPHIC_SPACE]

  /** Python's `str.translate` with a table of code points: every code point
      found in the table is replaced by its entry, the others are kept. */
  function Translate(s: Text, table: map<CodePoint, CodePoint>): (r: Text)
    ensures |r| == |s|
    ensures forall i :: 0 <= i < |s| && s[i] in table ==> r[i] == table[s[i]]
    ensures forall i :: 0 <= i < |s| && s[i] !in table ==> r[i] == s[i]
  {
    if |s| == 0 then []
    else
      var c := s[0];
      [if c in table then table[c] else c] + Translate(s[1..], table)
  }

  /** The full-width form of one code point, by cases. */
  function WideChar(c: CodePoint): (w: CodePoint)
  {
    if 0x21 <= c <= 0x7E then c + WIDE_OFFSET
    else if c == SPACE then IDEOGRAPHIC_SPACE
    else c
  }

  /** The table holds exactly the code points 0x20 .. 0x7E, and maps each the
      way `WideChar` does. */
  lemma WideMapMatchesWideChar(c: CodePoint)
    ensures c in WIDE_MAP <==> 0x20 <= c <= 0x7E
    ensures c in WIDE_MAP ==> WIDE_MAP[c] == WideChar(c)
  {
  }

  /** `widen`: the same length, and each code point widened on its own. */
  function Widen(s: Text): (r: Text)
    ensures |r| == |s|
    ensures forall i :: 0 <= i < |s| ==> r[i] == WideChar(s[i])
  {
    var r := Translate(s, WIDE_MAP);
    forall i | 0 <= i < |s|
      ensures r[i] == WideChar(s[i])
    {
      WideMapMatchesWideChar(s[i]);
    }
    r
  }

  /** Widened text is already wide: a second pass changes nothing, since no
      image of the table lies in 0x20 .. 0x7E. */
  lemma WidenIdempotent(s: Text)
    ensures Widen(Widen(s)) == Widen(s)
  {
  }

  /** Code points that are themselves full-width forms or the ideographic
      space: the images of the table. */
  predicate IsWideForm(c: CodePoint)
  {
    (0xFF01 <= c <= 0xFF5E) || c == IDEOGRAPHIC_SPACE
  }

  /** The inverse map on single code points. */
  function NarrowChar(c: CodePoint): (n: CodePoint)
  {
    if 0xFF01 <= c <= 0xFF5E then c - WIDE_OFFSET
    else if c == IDEOGRAPHIC_SPACE then SPACE
    else c
  }

  function Narrow(s: Text): (r: Text)
    ensures |r| == |s|
    ensures forall i :: 0 <= i < |s| ==> r[i] == NarrowChar(s[i])
  {
    seq(|s|, i requires 0 <= i < |s| => NarrowChar(s[i]))
  }

  /** `widen` loses nothing on text that holds no full-width form to begin
      with: narrowing the result gives the text back. */
  lemma NarrowWiden(s: Text)
    requires forall i :: 0 <= i < |s| ==> !IsWideForm(s[i])
    ensures Narrow(Widen(s)) == s
  {
  }

  /** Widening is injective on text without full-width forms. */
  lemma WidenInjective(s: Text, t: Text)
    requires forall i :: 0 <= i < |s| ==> !IsWideForm(s[i])
    requires forall i :: 0 <= i < |t| ==> !IsWideForm(t[i])
    requires Widen(s) == Widen(t)
    ensures s == t
  {
  }

  /** A newline is not in the table, so widening never introduces one. */
  lemma WidenKeepsNewlines(s: Text)
    ensures NEWLINE in Widen(s) <==> NEWLINE in s
  {
  }
}
