/** Code points, the text type every stage produces, the error outcomes of the
    pipeline, and the line structure of a rendered text block. */
module Codepoints {

  /** A Unicode code point as a Python 3 `str` holds it (lone surrogates included). */
  type CodePoint = c: int | 0 <= c <= 0x10FFFF

  /** A string, as the sequence of its code points. */
  type Text = seq<CodePoint>

  const NEWLINE: CodePoint := 0x0A
  const SPACE: CodePoint := 0x20

  /** The ways a run can fail: a zero-width image in the aspect-ratio division,
      or a resize to a size with no pixels. */
  datatype Error = ZeroDivision | InvalidSize

  datatype Result<T> = Ok(value: T) | Err(error: Error)

  /** Concatenation of the pieces, in order. */
  function Flatten(parts: seq<Text>): (t: Text)
  {
    if |parts| == 0 then [] else parts[0] + Flatten(parts[1..])
  }

  /** Position of the first newline, or the length when there is none. */
  function IndexOfNewline(t: Text): (i: nat)
    ensures i <= |t|
    ensures forall j :: 0 <= j < i ==> t[j] != NEWLINE
    ensures i < |t| ==> t[i] == NEWLINE
  {
    if |t| == 0 then 0
    else if t[0] == NEWLINE then 0
    else 1 + IndexOfNewline(t[1..])
  }

  /** The lines of a text block: the pieces between newlines, with an
      unterminated tail (if any) as a last line of its own. */
  function SplitLines(t: Text): (lines: seq<Text>)
    decreases |t|
  {
    if |t| == 0 then []
    else
      var i := IndexOfNewline(t);
      if i == |t| then [t] else [t[..i]] + SplitLines(t[i + 1..])
  }

  lemma {:induction false} FlattenAppend(parts: seq<Text>, last: Text)
    ensures Flatten(parts + [last]) == Flatten(parts) + last
  {
    if |parts| == 0 {
      assert parts + [last] == [last];
    } else {
      assert (parts + [last])[1..] == parts[1..] + [last];
      FlattenAppend(parts[1..], last);
    }
  }

  /** Pieces free of newlines concatenate to a text free of newlines. */
  lemma {:induction false} FlattenNoNewline(parts: seq<Text>)
    requires forall k :: 0 <= k < |parts| ==> NEWLINE !in parts[k]
    ensures NEWLINE !in Flatten(parts)
  {
    if |parts| > 0 {
      FlattenNoNewline(parts[1..]);
    }
  }

  /** A newline-free line and its terminator add exactly one newline. */
  lemma NewlineCountStep(line: Text, rest: Text)
    requires NEWLINE !in line
    ensures multiset(line + [NEWLINE] + rest)[NEWLINE] == multiset(rest)[NEWLINE] + 1
  {
    assert multiset(line)[NEWLINE] == 0;
  }

  /** A newline-free line followed by a newline splits off as the first line. */
  lemma SplitFirstLine(line: Text, rest: Text)
    requires NEWLINE !in line
    ensures SplitLines(line + [NEWLINE] + rest) == [line] + SplitLines(rest)
  {
    var t := line + [NEWLINE] + rest;
    var i := IndexOfNewline(t);
    assert t[|line|] == NEWLINE;
    assert forall j :: 0 <= j < |line| ==> t[j] == line[j];
    assert i == |line|;
    assert t[..i] == line;
    assert t[i + 1..] == rest;
  }
}
