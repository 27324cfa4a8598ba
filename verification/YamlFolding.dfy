/** Line breaks inside a double-quoted scalar: what the reader skips, and what it writes for them. */
module YamlFolding {
  import opened CodeUnits
  import opened Options
  import opened YamlText
  import opened YamlReader
  import opened YamlScalars

  // ---- Where a gap ends ----

  /** The place of the next unit that is neither white space nor a line break. */
  function GapEnd(input: Text, p: nat): (e: nat)
    requires Terminated(input, p)
    ensures p <= e < |input| && !IsBlank(input[e]) && Terminated(input, e)
    ensures forall i | p <= i < e :: IsBlank(input[i])
    decreases |input| - p
  {
    if IsBlank(input[p]) then GapEnd(input, p + 1) else p
  }

  /** The reader knows when it is at the start of a line. */
  predicate Placed(input: Text, c: Cursor) {
    && 0 < c.position <= |input| && c.lineStart <= c.position
    && (c.lineStart == c.position <==> IsEol(input[c.position - 1]))
  }

  lemma BreaksFrom(input: Text, p: nat, e: nat)
    requires p < e < |input| && !IsBlank(input[e])
    ensures LineBreaks(input[p..e]) ==
            (if input[p] == 10 || (input[p] == 13 && At(input, p + 1) != 10) then 1 else 0) + LineBreaks(input[p + 1..e])
  {
    assert input[p..e][1..] == input[p + 1..e];
    assert p + 1 < e ==> input[p..e][1] == input[p + 1];
  }

  // ---- Skipping ----

  /** Spaces at the start of a line hold no line break. */
  lemma {:induction false} IndentIsSkipped(input: Text, c: Cursor, e: nat)
    requires Terminated(input, c.position) && Placed(input, c) && c.position <= e < |input| && !IsBlank(input[e])
    ensures var d := AfterIndent(input, c);
            d.position <= e && Placed(input, d) && LineBreaks(input[c.position..e]) == LineBreaks(input[d.position..e])
    decreases e - c.position
  {
    if input[c.position] == 32 {
      hide LineBreaks;
      BreaksFrom(input, c.position, e);
      IndentIsSkipped(input, c.Advance(1).(lineIndent := c.lineIndent + 1), e);
    }
  }

  /** White space before the skipping starts changes nothing but the note of the first tab. */
  lemma WhiteIsSkipped(input: Text, c: Cursor)
    requires Terminated(input, c.position) && IsWhiteSpace(input[c.position])
    ensures var tab := if input[c.position] == 9 && c.firstTabInLine == -1 then c.position else c.firstTabInLine;
            Skipped(input, c, false) == Skipped(input, c.Advance(1).(firstTabInLine := tab), false)
  {
    hide Skipped, AfterIndent, AfterLineBreak;
    SkipTurn(input, c, false);
    var tab := if input[c.position] == 9 && c.firstTabInLine == -1 then c.position else c.firstTabInLine;
    SkipTurn(input, c.Advance(1).(firstTabInLine := tab), false);
  }

  /** A line break and the spaces after it. */
  lemma BreakIsSkipped(input: Text, c: Cursor, e: nat)
    requires Terminated(input, c.position) && c.position < e < |input| && !IsBlank(input[e])
    requires IsEol(input[c.position])
    ensures var d := AfterIndent(input, AfterLineBreak(input, c).(lineIndent := 0));
            && c.position < d.position <= e && Placed(input, d)
            && LineBreaks(input[c.position..e]) == 1 + LineBreaks(input[d.position..e])
            && Skipped(input, c, false) == (Skipped(input, d, false).0, Skipped(input, d, false).1 + 1)
  {
    hide Skipped, LineBreaks, AfterIndent;
    SkipTurn(input, c, false);
    BreaksFrom(input, c.position, e);
    var d := AfterLineBreak(input, c).(lineIndent := 0);
    if d.position == c.position + 2 {
      BreaksFrom(input, c.position + 1, e);
    }
    IndentIsSkipped(input, d, e);
  }

  /** Skipping ends where the gap ends, and counts its line breaks. */
  lemma {:induction false} GapIsSkipped(input: Text, c: Cursor, e: nat)
    requires Terminated(input, c.position) && Placed(input, c) && c.position <= e < |input| && !IsBlank(input[e])
    requires forall i | c.position <= i < e :: IsBlank(input[i])
    ensures var (d, breaks) := Skipped(input, c, false);
            d.position == e && breaks == LineBreaks(input[c.position..e]) && Placed(input, d)
    decreases e - c.position
  {
    hide Skipped, LineBreaks, AfterIndent, AfterLineBreak;
    if c.position == e {
      NothingIsSkipped(input, c);
    } else if IsEol(input[c.position]) {
      BreakIsSkipped(input, c, e);
      GapIsSkipped(input, AfterIndent(input, AfterLineBreak(input, c).(lineIndent := 0)), e);
    } else {
      WhiteIsSkipped(input, c);
      BreaksFrom(input, c.position, e);
      var tab := if input[c.position] == 9 && c.firstTabInLine == -1 then c.position else c.firstTabInLine;
      GapIsSkipped(input, c.Advance(1).(firstTabInLine := tab), e);
    }
  }

  lemma NothingIsSkipped(input: Text, c: Cursor)
    requires Terminated(input, c.position) && !IsBlank(input[c.position])
    ensures Skipped(input, c, false) == (c, 0) && LineBreaks(input[c.position..c.position]) == 0
  {
    SkipTurn(input, c, false);
    assert input[c.position..c.position] == [];
  }

  // ---- Folding ----

  lemma {:induction false} LineFeedsAre(n: nat)
    ensures LineFeeds(n) == seq(n, _ => 10)
  {
    if n > 0 {
      LineFeedsAre(n - 1);
      var t: Text := seq(n, _ => 10);
      assert t == [10] + seq(n - 1, _ => 10);
    }
  }
}
