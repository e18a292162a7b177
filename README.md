# paste and paste2: tab-column mergers of the RNNTagger scripts

`RNNTagger/scripts/paste.py` and `RNNTagger/scripts/paste2.py` read two
files in lockstep, one line of each per step, and stop as soon as either
file runs out (Python's `zip`).

- **paste**: a line of the first file that is blank once trimmed gives an
  empty output line. Any other line gives its trimmed text, a tab, and the
  last tab-separated field of the second file's line with its trailing
  whitespace removed (the lemma column).
- **paste2**: the blank rule is the same. Any other line gives the first
  tab-separated field of the trimmed first line (the word) together with
  the list of the fields of the trimmed second line after its first one
  (the tag and lemma columns).

The project has three modules:

- `PyStr` (`pystr.dfy`) defines the Python string operations the scripts
  use, as pure functions on `seq<char>`: `str.strip()`, `str.rstrip()`
  (with `LStrip` as the other half of `strip`) and `str.split("\t")`.
  Neither script joins strings; `Join` (`"\t".join(...)`) is there only
  as the inverse of `Split` in the lemmas. The tab between paste's two
  output columns comes from `print(..., sep="\t")`, which `PasteLine`
  writes as an explicit tab. The lemmas say what each function means.
  Whitespace is the set of characters `str.isspace()` accepts, which is
  what the no-argument `strip`/`rstrip` remove: code points 9-13, 28-32, U+0085, U+00A0, U+1680,
  U+2000-U+200A, U+2028, U+2029, U+202F, U+205F and U+3000.
- `Paste` (`paste.dfy`) has the per-line rule `PasteLine`, which is pure.
  The loop over the zipped pairs is the method `Paste`. It is proved
  against `PasteLine`, and the lemmas state what an output line holds.
- `Paste2` (`paste2.dfy`) has the same structure: the per-line rule
  `Paste2Line` returns a `Row`, either `BlankRow` or
  `WordRow(word, tagLemma)`, and the method `Paste2` holds the loop.

A file is a `seq<string>` of its lines, each line with whatever terminator
it was read with. An output line is the text `print` writes before its
line terminator.

## Model

| member | source | states |
|---|---|---|
| Paste.Paste | RNNTagger/scripts/paste.py:7-13 | one output line per pair zip yields, so as many as the shorter file has lines, and line i is the per-line rule applied to line i of each file |
| Paste.BlankLine | RNNTagger/scripts/paste.py:8-9 | an output line is empty exactly when the first file's line is all whitespace, whatever the second line is |
| Paste.NonBlankLine | RNNTagger/scripts/paste.py:8-11 | a non-blank first line gives strip(line1), a tab, and the text after the last tab of rstrip(line2) |
| Paste.LemmaFieldAfterLastTab | RNNTagger/scripts/paste.py:10 | the lemma is the text after the last tab of rstrip(line2), or all of it when there is no tab |
| Paste.LemmaFieldSuffix | RNNTagger/scripts/paste.py:10 | the lemma is a tab-free suffix of rstrip(line2), preceded there by a tab unless it is the whole line |
| Paste.LemmaFieldEmpty | RNNTagger/scripts/paste.py:10 | the lemma is empty exactly when line2 is all whitespace: trailing tabs never give an empty last field |
| Paste.LemmaFieldWhole | RNNTagger/scripts/paste.py:10 | when rstrip(line2) has no tab, the lemma is rstrip(line2) itself |
| Paste.BlankSecondLine | RNNTagger/scripts/paste.py:10-11 | an all-whitespace second line gives an empty lemma, so the output is strip(line1) followed by a lone tab |
| Paste.OutputColumns | RNNTagger/scripts/paste.py:11 | splitting a non-blank output line on tabs gives back the lemma as its last field, and the other fields rejoin to strip(line1) |
| Paste2.Paste2 | RNNTagger/scripts/paste2.py:7-13 | one output per pair zip yields, so as many as the shorter file has lines, and output i is the per-line rule applied to line i of each file |
| Paste2.BlankLine | RNNTagger/scripts/paste2.py:8 | an output is blank exactly when the first file's line is all whitespace, whatever the second line is |
| Paste2.NonBlankLine | RNNTagger/scripts/paste2.py:8-11 | a non-blank first line gives a row whose word is the non-empty text before the first tab of strip(line1) |
| Paste2.WordPrefix | RNNTagger/scripts/paste2.py:9 | the word is strip(line1) up to its first tab, and holds no tab |
| Paste2.WordWhole | RNNTagger/scripts/paste2.py:9 | when strip(line1) has no tab, the word is strip(line1) itself |
| Paste2.WordEmpty | RNNTagger/scripts/paste2.py:8-9 | the word is empty exactly when line1 is all whitespace |
| Paste2.WordIgnoresRest | RNNTagger/scripts/paste2.py:9 | a word with no tab and no whitespace at either end, followed by a tab and any text, gives back that word: nothing after the first tab is read |
| Paste2.TagLemmaSpec | RNNTagger/scripts/paste2.py:10 | the tag and lemma list has one entry per tab of strip(line2), and no entry holds a tab |
| Paste2.TagLemmaEmpty | RNNTagger/scripts/paste2.py:10 | the tag and lemma list is empty exactly when strip(line2) has no tab, which includes a blank line2 |
| Paste2.Reconstruction | RNNTagger/scripts/paste2.py:10 | the first field of strip(line2) followed by the tag and lemma list, joined with tabs, is strip(line2) |
| Paste.PasteLine | RNNTagger/scripts/paste.py:8-13 | computes one output line: empty when strip(line1) is empty, otherwise strip(line1), a tab and the lemma column; characterised by Paste.BlankLine and Paste.NonBlankLine |
| Paste.LemmaField | RNNTagger/scripts/paste.py:10 | computes the lemma column, the last field of rstrip(line2) split on tabs; characterised by Paste.LemmaFieldAfterLastTab, Paste.LemmaFieldSuffix and Paste.LemmaFieldEmpty |
| Paste2.Paste2Line | RNNTagger/scripts/paste2.py:8-13 | computes one output: BlankRow when strip(line1) is empty, otherwise the word with the tag and lemma list; characterised by Paste2.BlankLine and Paste2.NonBlankLine |
| Paste2.Word | RNNTagger/scripts/paste2.py:9 | computes the word, the first field of strip(line1) split on tabs; characterised by Paste2.WordPrefix, Paste2.WordEmpty and Paste2.WordIgnoresRest |
| Paste2.TagLemma | RNNTagger/scripts/paste2.py:10 | computes the tag and lemma list, the fields of strip(line2) after the first; characterised by Paste2.TagLemmaSpec, Paste2.TagLemmaEmpty and Paste2.Reconstruction |
| PyStr.IsSpace | RNNTagger/scripts/paste.py:8 | the characters str.isspace() accepts, which the no-argument strip and rstrip remove; used by every strip lemma |
| PyStr.RStrip | RNNTagger/scripts/paste.py:10 | computes str.rstrip(); characterised by PyStr.RStripSpec with PyStr.RStripUnique |
| PyStr.Strip | RNNTagger/scripts/paste.py:8 | computes str.strip() as rstrip followed by lstrip; characterised by PyStr.StripSpec with PyStr.StripUnique |
| PyStr.RStripSpec | RNNTagger/scripts/paste.py:10 | rstrip gives a prefix that is empty or ends in a non-whitespace character, and only whitespace was removed |
| PyStr.RStripEmpty | RNNTagger/scripts/paste.py:10 | rstrip gives the empty string exactly for an all-whitespace string |
| PyStr.RStripUnique | RNNTagger/scripts/paste.py:10 | text that does not end in whitespace, followed by whitespace, rstrips to that text |
| PyStr.LStripSpec | RNNTagger/scripts/paste.py:8 | lstrip gives a suffix that is empty or starts with a non-whitespace character, and only whitespace was removed |
| PyStr.LStripUnique | RNNTagger/scripts/paste.py:8 | whitespace followed by text that does not start with whitespace lstrips to that text |
| PyStr.StripSpec | RNNTagger/scripts/paste.py:8 | strip gives a slice of its input with only whitespace on both sides, and the slice neither starts nor ends with whitespace |
| PyStr.StripUnique | RNNTagger/scripts/paste2.py:8 | whitespace, then text with no whitespace at either end, then whitespace, strips to that text |
| PyStr.StripEmpty | RNNTagger/scripts/paste.py:8-9 | strip gives the empty string exactly for an all-whitespace string, which is when the script's test fails |
| PyStr.Split | RNNTagger/scripts/paste.py:10 | split always returns at least one field, so taking its first or last field is always defined |
| PyStr.SplitSpec | RNNTagger/scripts/paste2.py:10 | split returns one field more than the string has tabs, and no field holds a tab |
| PyStr.SplitNoTab | RNNTagger/scripts/paste.py:10 | a string with no tab splits into itself alone |
| PyStr.SplitAppend | RNNTagger/scripts/paste.py:10-11 | splitting a + tab + b gives the fields of a followed by the fields of b |
| PyStr.JoinSplit | RNNTagger/scripts/paste.py:10 | joining the fields of split(s) with tabs gives back s |
| PyStr.SplitJoin | RNNTagger/scripts/paste2.py:10 | splitting the tab-join of a non-empty list of tab-free fields gives back that list |
| PyStr.CountTabsZero | RNNTagger/scripts/paste2.py:10 | a string has no tab exactly when it holds zero tabs |
| PyStr.FirstTabSpec | RNNTagger/scripts/paste2.py:9 | the first-tab index points at a tab, or at the end of the string, and no tab precedes it |
| PyStr.LastTabSpec | RNNTagger/scripts/paste.py:10 | the last-tab index points at a tab, or is -1, and no tab follows it |
| PyStr.FirstField | RNNTagger/scripts/paste2.py:9 | the first field of split(s) is s up to its first tab |
| PyStr.LastField | RNNTagger/scripts/paste.py:10 | the last field of split(s) is s after its last tab |

## Left out

- Opening the two files named on the command line, closing them, and
  writing to standard output are left out. The files are inputs of type
  `seq<string>` and the output is the returned sequence.
- The line terminator that `print` adds, and the newline translation and
  text decoding that `open` does, are left out. Lines are sequences of
  Unicode characters.
- Paste2.Paste2: paste2 prints the word, a tab, and Python's `repr` of the
  `tag_lemma` list (brackets, quotes, escapes). The model keeps the pair as
  `WordRow(word, tagLemma)` and does not render it. In particular the
  printed line is not the fields joined with tabs.
- The reading of both files is lazy, and a script stops at the shorter
  file without reading the rest of the longer one. The model takes the
  whole files up front. The result is the same, but the laziness is not
  modelled.
