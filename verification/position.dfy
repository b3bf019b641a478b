/** Where a match lies in a definition's text: the 1-based line number of
    `get_line_number` (src/dependency.py:88-90) and the 0-based column of
    the `col_start` expression (src/dependency.py:54). */
module Position {
  import opened Text

  /** Python's `text[:pos]` for any integer `pos`: a negative bound counts
      from the end and a bound past the end is clamped. */
  function SlicePrefix(text: string, pos: int): (r: string)
    ensures |r| <= |text| && r == text[..|r|]
  {
    if pos >= |text| then text
    else if pos >= 0 then text[..pos]
    else if |text| + pos >= 0 then text[..|text| + pos]
    else []
  }

  /** `get_line_number(text, pos)`: one more than the newlines before `pos`. */
  function LineNumber(text: string, pos: int): (line: int)
    ensures line >= 1
  {
    CountChar(SlicePrefix(text, pos), '\n') + 1
  }

  /** For a position inside the text the line number is a line that exists:
      between 1 and one more than the number of newlines. */
  lemma LineNumberBounds(text: string, pos: int)
    requires 0 <= pos <= |text|
    ensures 1 <= LineNumber(text, pos) <= 1 + CountChar(text, '\n')
  {
    assert text == text[..pos] + text[pos..];
    CountConcat(text[..pos], text[pos..], '\n');
  }

  /** Moving one character forward raises the line number exactly when the
      character passed over is a newline. */
  lemma LineNumberStep(text: string, pos: int)
    requires 0 <= pos < |text|
    ensures LineNumber(text, pos + 1) == LineNumber(text, pos) + (if text[pos] == '\n' then 1 else 0)
  {
    assert text[..pos + 1] == text[..pos] + [text[pos]];
    CountConcat(text[..pos], [text[pos]], '\n');
  }

  /** `pos - text.rfind("\n", 0, pos) - 1`: the distance from the start of
      the line holding `pos`. It is never negative, equals `pos` when no
      newline precedes `pos`, and steps back over newline-free text to the
      start of the text or to just after a newline. */
  function ColStart(text: string, pos: nat): (col: int)
    requires pos <= |text|
    ensures 0 <= col <= pos
    ensures '\n' !in text[pos - col..pos]
    ensures pos - col == 0 || text[pos - col - 1] == '\n'
    ensures col == pos <==> '\n' !in text[..pos]
  {
    pos - RFind(text, '\n', pos) - 1
  }

  /** The column is measured within the line the line number names: the
      start of that column lies on the same line as `pos`. */
  lemma {:induction false} ColumnOnSameLine(text: string, pos: nat)
    requires pos <= |text|
    ensures LineNumber(text, pos - ColStart(text, pos)) == LineNumber(text, pos)
  {
    var start := pos - ColStart(text, pos);
    assert text[..pos] == text[..start] + text[start..pos];
    CountConcat(text[..start], text[start..pos], '\n');
  }
}
