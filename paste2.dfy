/** The second paste filter: it reads two files in lockstep and, for each
    pair of lines, outputs the first tab-separated field of the trimmed
    first line together with the list of the trimmed second line's fields
    after its first one; a blank line of the first file gives an empty
    output line. */
module Paste2 {
  import opened PyStr

  /** One output line: empty, or a word with its list of tag and lemma
      fields (kept as a value; its printed rendering is not modelled). */
  datatype Row = BlankRow | WordRow(word: string, tagLemma: seq<string>)

  /** The word column: the first tab-separated field of the trimmed line. */
  function Word(line1: string): string
  {
    Split(Strip(line1))[0]
  }

  /** The tag and lemma columns: the fields of the trimmed line after its
      first one. */
  function TagLemma(line2: string): seq<string>
  {
    Split(Strip(line2))[1..]
  }

  /** The output for one pair of input lines. */
  function Paste2Line(line1: string, line2: string): Row
  {
    if Strip(line1) == [] then BlankRow else WordRow(Word(line1), TagLemma(line2))
  }

  /** The first n outputs: one per pair of lines taken in step. */
  ghost function Paste2Rows(file1: seq<string>, file2: seq<string>, n: nat): seq<Row>
    requires n <= |file1| && n <= |file2|
  {
    seq(n, k requires 0 <= k < n => Paste2Line(file1[k], file2[k]))
  }

  lemma Paste2RowsStep(file1: seq<string>, file2: seq<string>, n: nat)
    requires n < |file1| && n < |file2|
    ensures Paste2Rows(file1, file2, n + 1) ==
      Paste2Rows(file1, file2, n) + [Paste2Line(file1[n], file2[n])]
  {
  }

  /** The filter over both files: one output per pair that zip produces,
      so as many as the shorter file has lines. */
  method Paste2(file1: seq<string>, file2: seq<string>) returns (out: seq<Row>)
    ensures |out| == if |file1| <= |file2| then |file1| else |file2|
    ensures forall i :: 0 <= i < |out| ==> out[i] == Paste2Line(file1[i], file2[i])
  {
    out := [];
    var i := 0;
    while i < |file1| && i < |file2|
      invariant i <= |file1| && i <= |file2|
      invariant out == Paste2Rows(file1, file2, i)
    {
      var stripped1 := Strip(file1[i]);
      var row := BlankRow;
      if stripped1 != [] {
        var word := Split(stripped1)[0];
        var tagLemma := Split(Strip(file2[i]))[1..];
        row := WordRow(word, tagLemma);
      }
      Paste2RowsStep(file1, file2, i);
      out := out + [row];
      i := i + 1;
    }
  }

  /** An output is blank exactly when the first file's line is blank,
      whatever the second file's line holds. */
  lemma BlankLine(line1: string, line2: string)
    ensures Paste2Line(line1, line2) == BlankRow <==> AllSpace(line1)
  {
    StripEmpty(line1);
  }

  /** The word is the trimmed first line up to its first tab, and holds no
      tab. */
  lemma WordPrefix(line1: string)
    ensures var s := Strip(line1);
      Word(line1) == s[..FirstTab(s)] && NoTab(Word(line1))
  {
    WordBeforeFirstTab(line1, Strip(line1));
  }

  lemma WordBeforeFirstTab(line1: string, s: string)
    requires s == Strip(line1)
    ensures Word(line1) == s[..FirstTab(s)] && NoTab(Word(line1))
  {
    FirstField(s);
    FirstTabSpec(s);
    assert Word(line1) == Split(s)[0];
  }

  /** A non-blank first line gives a row whose word is the non-empty text
      before the first tab of the trimmed first line. */
  lemma NonBlankLine(line1: string, line2: string)
    requires !AllSpace(line1)
    ensures var s := Strip(line1);
      0 < FirstTab(s) && Paste2Line(line1, line2) == WordRow(s[..FirstTab(s)], TagLemma(line2))
  {
    StripEmpty(line1);
    WordEmpty(line1);
    WordPrefix(line1);
  }

  /** A trimmed first line without a tab is the word as a whole. */
  lemma WordWhole(line1: string)
    requires NoTab(Strip(line1))
    ensures Word(line1) == Strip(line1)
  {
    SplitNoTab(Strip(line1));
  }

  /** The word is empty only for a blank first line: trimming removes
      leading tabs, so a non-blank line never starts with an empty field. */
  lemma WordEmpty(line1: string)
    ensures Word(line1) == [] <==> AllSpace(line1)
  {
    var s := Strip(line1);
    var i, j := StripSpec(line1);
    StripEmpty(line1);
    WordBeforeFirstTab(line1, s);
    if s != [] {
      assert s[0] != TAB;
      assert FirstTab(s) > 0;
      assert Word(line1)[0] == s[0];
    }
  }

  /** The word does not depend on anything after the first tab of the first
      line: a word followed by a tab and any text gives back that word. */
  lemma WordIgnoresRest(w: string, t: string)
    requires w != [] && NoTab(w)
    requires !IsSpace(w[0]) && !IsSpace(w[|w| - 1])
    ensures Word(w + [TAB] + t) == w
  {
    var x := w + [TAB] + t;
    var i, j := StripSpec(x);
    assert x[0] == w[0] && x[|w| - 1] == w[|w| - 1];
    var s := Strip(x);
    assert s == x[..j];
    if j == |w| {
      assert s == w;
      SplitNoTab(w);
    } else {
      assert s == w + [TAB] + t[..j - |w| - 1];
      FirstFieldBeforeTab(w, t[..j - |w| - 1]);
    }
  }

  /** The tag and lemma list has one entry per tab of the trimmed second
      line, and none of its entries holds a tab. */
  lemma TagLemmaSpec(line2: string)
    ensures |TagLemma(line2)| == CountTabs(Strip(line2))
    ensures forall k :: 0 <= k < |TagLemma(line2)| ==> NoTab(TagLemma(line2)[k])
  {
    var s := Strip(line2);
    SplitSpec(s);
    assert forall k :: 0 <= k < |TagLemma(line2)| ==> TagLemma(line2)[k] == Split(s)[k + 1];
  }

  /** The tag and lemma list is empty exactly when the trimmed second line
      has no tab, a blank second line included. */
  lemma TagLemmaEmpty(line2: string)
    ensures TagLemma(line2) == [] <==> NoTab(Strip(line2))
  {
    TagLemmaSpec(line2);
    CountTabsZero(Strip(line2));
  }

  /** Nothing of the second line is lost but its first field: putting that
      field back in front of the list and joining with tabs rebuilds the
      trimmed second line. */
  lemma Reconstruction(line2: string)
    ensures Join([Split(Strip(line2))[0]] + TagLemma(line2)) == Strip(line2)
  {
    var fields := Split(Strip(line2));
    assert [fields[0]] + fields[1..] == fields;
    JoinSplit(Strip(line2));
  }
}
