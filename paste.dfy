/** The paste filter: it reads two files in lockstep and, for each pair of
    lines, writes the trimmed line of the first file, a tab and the last
    tab-separated field of the second file's line; a blank line of the first
    file gives an empty output line. */
module Paste {
  import opened PyStr

  /** The lemma column: the last tab-separated field of line2 once its
      trailing whitespace is gone. */
  function LemmaField(line2: string): string
  {
    var fields := Split(RStrip(line2));
    fields[|fields| - 1]
  }

  /** The output line for one pair of input lines (without the line
      terminator that printing adds). */
  function PasteLine(line1: string, line2: string): string
  {
    var word := Strip(line1);
    if word == [] then [] else word + [TAB] + LemmaField(line2)
  }

  /** The first n output lines: one per pair of lines taken in step. */
  ghost function PastedLines(file1: seq<string>, file2: seq<string>, n: nat): seq<string>
    requires n <= |file1| && n <= |file2|
  {
    seq(n, k requires 0 <= k < n => PasteLine(file1[k], file2[k]))
  }

  lemma PastedLinesStep(file1: seq<string>, file2: seq<string>, n: nat)
    requires n < |file1| && n < |file2|
    ensures PastedLines(file1, file2, n + 1) ==
      PastedLines(file1, file2, n) + [PasteLine(file1[n], file2[n])]
  {
  }

  /** The filter over both files: one output line per pair that zip
      produces, so as many lines as the shorter file has. */
  method Paste(file1: seq<string>, file2: seq<string>) returns (out: seq<string>)
    ensures |out| == if |file1| <= |file2| then |file1| else |file2|
    ensures forall i :: 0 <= i < |out| ==> out[i] == PasteLine(file1[i], file2[i])
  {
    out := [];
    var i := 0;
    while i < |file1| && i < |file2|
      invariant i <= |file1| && i <= |file2|
      invariant out == PastedLines(file1, file2, i)
    {
      var line1 := Strip(file1[i]);
      var row: string := [];
      if line1 != [] {
        var fields := Split(RStrip(file2[i]));
        row := line1 + [TAB] + fields[|fields| - 1];
      }
      PastedLinesStep(file1, file2, i);
      out := out + [row];
      i := i + 1;
    }
  }

  /** An output line is empty exactly when the first file's line is blank,
      whatever the second file's line holds. */
  lemma BlankLine(line1: string, line2: string)
    ensures PasteLine(line1, line2) == [] <==> AllSpace(line1)
  {
    StripEmpty(line1);
  }

  /** The lemma column is the text after the last tab of the right-trimmed
      second line, or all of it when it has no tab. */
  lemma LemmaFieldAfterLastTab(line2: string)
    ensures var t := RStrip(line2); LemmaField(line2) == t[LastTab(t) + 1..]
  {
    AfterLastTab(line2, RStrip(line2));
  }

  lemma AfterLastTab(line2: string, t: string)
    requires t == RStrip(line2)
    ensures LemmaField(line2) == t[LastTab(t) + 1..]
  {
    LastField(t);
    assert LemmaField(line2) == Split(t)[|Split(t)| - 1];
  }

  /** A non-blank line gives the trimmed line, a tab, and the text after the
      last tab of the right-trimmed second line. */
  lemma NonBlankLine(line1: string, line2: string)
    requires !AllSpace(line1)
    ensures var t := RStrip(line2);
      PasteLine(line1, line2) == Strip(line1) + [TAB] + t[LastTab(t) + 1..]
  {
    StripEmpty(line1);
    assert PasteLine(line1, line2) == Strip(line1) + [TAB] + LemmaField(line2);
    LemmaFieldAfterLastTab(line2);
  }

  /** The lemma column is a tab-free suffix of the right-trimmed second
      line, preceded there by a tab unless it is the whole line. */
  lemma LemmaFieldSuffix(line2: string)
    ensures var t, f := RStrip(line2), LemmaField(line2);
      NoTab(f) && |f| <= |t| && f == t[|t| - |f|..] &&
      (|f| < |t| ==> t[|t| - |f| - 1] == TAB)
  {
    var t := RStrip(line2);
    AfterLastTab(line2, t);
    LastTabSpec(t);
  }

  /** The lemma column is empty only when the second line is all
      whitespace: trailing tabs never yield an empty last field, because
      rstrip removes them. */
  lemma LemmaFieldEmpty(line2: string)
    ensures LemmaField(line2) == [] <==> AllSpace(line2)
  {
    var t := RStrip(line2);
    AfterLastTab(line2, t);
    LastTabSpec(t);
    RStripSpec(line2);
    RStripEmpty(line2);
  }

  /** When the right-trimmed second line has no tab, the lemma column is
      that whole line. */
  lemma LemmaFieldWhole(line2: string)
    requires NoTab(RStrip(line2))
    ensures LemmaField(line2) == RStrip(line2)
  {
    SplitNoTab(RStrip(line2));
  }

  /** An all-whitespace second line gives an empty lemma column, so the
      output is the trimmed first line followed by a lone tab. */
  lemma BlankSecondLine(line1: string, line2: string)
    requires AllSpace(line2) && !AllSpace(line1)
    ensures LemmaField(line2) == []
    ensures PasteLine(line1, line2) == Strip(line1) + [TAB]
  {
    LemmaFieldEmpty(line2);
    StripEmpty(line1);
    assert PasteLine(line1, line2) == Strip(line1) + [TAB] + [];
  }

  /** Splitting a non-blank output line on tabs gives back its parts: the
      last field is the lemma column and the others rejoin to the trimmed
      first line. */
  lemma OutputColumns(line1: string, line2: string)
    requires !AllSpace(line1)
    ensures var fs := Split(PasteLine(line1, line2));
      fs[|fs| - 1] == LemmaField(line2) && Join(fs[..|fs| - 1]) == Strip(line1)
  {
    StripEmpty(line1);
    var w, f := Strip(line1), LemmaField(line2);
    assert PasteLine(line1, line2) == w + [TAB] + f;
    LemmaFieldSuffix(line2);
    SplitAppend(w, f);
    SplitNoTab(f);
    var fs := Split(PasteLine(line1, line2));
    assert fs == Split(w) + [f];
    assert fs[..|fs| - 1] == Split(w);
    JoinSplit(w);
  }
}
