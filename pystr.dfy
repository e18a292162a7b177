/** Python's str.strip(), str.rstrip(), str.split("\t") and "\t".join(), as
    pure functions on strings, with the facts the two paste filters rely on.

    The functions carry only the bounds their callers need to be well
    defined; what they mean is stated by the lemmas after them. */
module PyStr {

  /** The field delimiter both filters split on. */
  const TAB: char := '\t'

  /** The characters Python's str.isspace() accepts, which are the ones
      str.strip() and str.rstrip() remove when called without arguments. */
  predicate IsSpace(c: char) {
    var n := c as int;
    (9 <= n <= 13) || (28 <= n <= 32) || n == 0x85 || n == 0xA0 || n == 0x1680
    || (0x2000 <= n <= 0x200A) || n == 0x2028 || n == 0x2029 || n == 0x202F
    || n == 0x205F || n == 0x3000
  }

  /** s holds no tab. */
  predicate NoTab(s: string) {
    forall i :: 0 <= i < |s| ==> s[i] != TAB
  }

  /** s is whitespace only (the empty string included). */
  predicate AllSpace(s: string) {
    forall i :: 0 <= i < |s| ==> IsSpace(s[i])
  }

  /** Length of s once trailing whitespace is removed. */
  function RStripLen(s: string): (k: nat)
    ensures k <= |s|
    decreases |s|
  {
    if |s| > 0 && IsSpace(s[|s| - 1]) then RStripLen(s[..|s| - 1]) else |s|
  }

  /** s.rstrip() */
  function RStrip(s: string): string {
    s[..RStripLen(s)]
  }

  /** Number of leading whitespace characters of s. */
  function LStripLen(s: string): (k: nat)
    ensures k <= |s|
    decreases |s|
  {
    if |s| > 0 && IsSpace(s[0]) then 1 + LStripLen(s[1..]) else 0
  }

  /** s.lstrip() */
  function LStrip(s: string): string {
    s[LStripLen(s)..]
  }

  /** s.strip() */
  function Strip(s: string): string {
    LStrip(RStrip(s))
  }

  /** s.split("\t"): the fields between tabs, in order. There is always at
      least one field, so indexing the first or the last one is safe. */
  function Split(s: string): (r: seq<string>)
    ensures |r| >= 1
    decreases |s|
  {
    if s == [] then [[]]
    else
      var rest := Split(s[1..]);
      if s[0] == TAB then [[]] + rest
      else [[s[0]] + rest[0]] + rest[1..]
  }

  /** "\t".join(fields) */
  function Join(fields: seq<string>): string
    decreases |fields|
  {
    if fields == [] then []
    else if |fields| == 1 then fields[0]
    else fields[0] + [TAB] + Join(fields[1..])
  }

  /** The number of tab characters in s. */
  function CountTabs(s: string): nat
    decreases |s|
  {
    if s == [] then 0 else (if s[0] == TAB then 1 else 0) + CountTabs(s[1..])
  }

  /** Index of the first tab in s, or |s| when there is none. */
  function FirstTab(s: string): (k: nat)
    ensures k <= |s|
    decreases |s|
  {
    if s == [] || s[0] == TAB then 0 else 1 + FirstTab(s[1..])
  }

  /** Index of the last tab in s, or -1 when there is none. */
  function LastTab(s: string): (k: int)
    ensures -1 <= k < |s|
    decreases |s|
  {
    if s == [] then -1
    else if s[|s| - 1] == TAB then |s| - 1
    else LastTab(s[..|s| - 1])
  }

  // ---------------------------------------------------------------------
  // rstrip, lstrip, strip

  /** RStripLen stops at a non-whitespace character, or at the start, and
      everything it cuts off is whitespace. */
  lemma {:induction false} RStripLenSpec(s: string)
    ensures var k := RStripLen(s);
      (k == 0 || !IsSpace(s[k - 1])) && forall j :: k <= j < |s| ==> IsSpace(s[j])
    decreases |s|
  {
    if |s| > 0 && IsSpace(s[|s| - 1]) {
      var t := s[..|s| - 1];
      RStripLenSpec(t);
      assert forall j :: 0 <= j < |t| ==> t[j] == s[j];
    }
  }

  /** s.rstrip() is a prefix of s that is empty or ends in a non-whitespace
      character, and what follows it in s is whitespace only. */
  lemma RStripSpec(s: string)
    ensures var r := RStrip(s);
      r <= s && (r == [] || !IsSpace(r[|r| - 1])) && AllSpace(s[|r|..])
  {
    RStripLenSpec(s);
    var k := RStripLen(s);
    assert forall j :: 0 <= j < |s| - k ==> s[k..][j] == s[k + j];
  }

  /** rstrip gives the empty string exactly when s is all whitespace. */
  lemma RStripEmpty(s: string)
    ensures RStrip(s) == [] <==> AllSpace(s)
  {
    RStripSpec(s);
    var r := RStrip(s);
    if r == [] {
      assert s[|r|..] == s;
    } else {
      assert s[|r| - 1] == r[|r| - 1];
    }
  }

  /** LStripLen stops at a non-whitespace character, or at the end, and
      everything it skips is whitespace. */
  lemma {:induction false} LStripLenSpec(s: string)
    ensures var k := LStripLen(s);
      (k == |s| || !IsSpace(s[k])) && forall j :: 0 <= j < k ==> IsSpace(s[j])
    decreases |s|
  {
    if |s| > 0 && IsSpace(s[0]) {
      var t := s[1..];
      LStripLenSpec(t);
      assert forall j :: 0 <= j < |t| ==> t[j] == s[j + 1];
    }
  }

  /** s.lstrip() is a suffix of s that is empty or starts with a
      non-whitespace character, and what precedes it is whitespace only. */
  lemma LStripSpec(s: string)
    ensures var r := LStrip(s);
      |r| <= |s| && r == s[|s| - |r|..] && (r == [] || !IsSpace(r[0]))
      && AllSpace(s[..|s| - |r|])
  {
    LStripLenSpec(s);
  }

  /** A string that is empty or does not end in whitespace, followed by
      whitespace only, rstrips to that string. */
  lemma RStripUnique(m: string, q: string)
    requires m == [] || !IsSpace(m[|m| - 1])
    requires AllSpace(q)
    ensures RStrip(m + q) == m
  {
    RStripLenUnique(m, q);
    assert (m + q)[..|m|] == m;
  }

  lemma {:induction false} RStripLenUnique(m: string, q: string)
    requires m == [] || !IsSpace(m[|m| - 1])
    requires AllSpace(q)
    ensures RStripLen(m + q) == |m|
    decreases |q|
  {
    var s := m + q;
    if q == [] {
      assert s == m;
    } else {
      assert s[|s| - 1] == q[|q| - 1];
      assert s[..|s| - 1] == m + q[..|q| - 1];
      RStripLenUnique(m, q[..|q| - 1]);
    }
  }

  /** Whitespace only, followed by a string that is empty or does not start
      with whitespace, lstrips to that string. */
  lemma LStripUnique(p: string, m: string)
    requires AllSpace(p)
    requires m == [] || !IsSpace(m[0])
    ensures LStrip(p + m) == m
  {
    LStripLenUnique(p, m);
    assert (p + m)[|p|..] == m;
  }

  lemma {:induction false} LStripLenUnique(p: string, m: string)
    requires AllSpace(p)
    requires m == [] || !IsSpace(m[0])
    ensures LStripLen(p + m) == |p|
    decreases |p|
  {
    var s := p + m;
    if p == [] {
      assert s == m;
    } else {
      assert s[0] == p[0];
      assert s[1..] == p[1..] + m;
      LStripLenUnique(p[1..], m);
    }
  }

  /** s.strip() is a slice s[i..j] with only whitespace cut off at either
      end, and it neither starts nor ends with whitespace. */
  lemma StripSpec(s: string) returns (i: nat, j: nat)
    ensures i <= j <= |s| && Strip(s) == s[i..j]
    ensures AllSpace(s[..i]) && AllSpace(s[j..])
    ensures var r := Strip(s); r == [] || (!IsSpace(r[0]) && !IsSpace(r[|r| - 1]))
  {
    RStripSpec(s);
    var r := RStrip(s);
    LStripSpec(r);
    var m := LStrip(r);
    j := |r|;
    i := |r| - |m|;
    assert s[..j] == r;
    assert s[..i] == r[..i];
    assert m == r[i..];
    assert m != [] ==> m[|m| - 1] == r[|r| - 1];
  }

  /** A string made of whitespace, then a middle that neither starts nor
      ends with whitespace, then whitespace, strips to that middle. */
  lemma StripUnique(p: string, m: string, q: string)
    requires AllSpace(p) && AllSpace(q)
    requires m == [] || (!IsSpace(m[0]) && !IsSpace(m[|m| - 1]))
    ensures Strip(p + m + q) == m
  {
    if m == [] {
      assert p + m + q == [] + (p + q);
      RStripUnique([], p + q);
      assert LStrip([]) == [];
    } else {
      assert p + m + q == (p + m) + q;
      RStripUnique(p + m, q);
      LStripUnique(p, m);
    }
  }

  /** strip gives the empty string exactly when s is all whitespace. */
  lemma StripEmpty(s: string)
    ensures Strip(s) == [] <==> AllSpace(s)
  {
    var i, j := StripSpec(s);
    if Strip(s) == [] {
      assert s == s[..i] + s[j..];
    } else {
      assert s[i] == Strip(s)[0];
    }
  }

  // ---------------------------------------------------------------------
  // split and join

  /** s.split("\t") has one field more than s has tabs, and no field
      holds a tab. */
  lemma {:induction false} SplitSpec(s: string)
    ensures |Split(s)| == CountTabs(s) + 1
    ensures forall k :: 0 <= k < |Split(s)| ==> NoTab(Split(s)[k])
    decreases |s|
  {
    if s != [] {
      var rest := Split(s[1..]);
      SplitSpec(s[1..]);
      if s[0] != TAB {
        var f := [s[0]] + rest[0];
        assert NoTab(rest[0]);
        assert forall j :: 1 <= j < |f| ==> f[j] == rest[0][j - 1];
      }
    }
  }

  /** A string without tabs is a single field. */
  lemma {:induction false} SplitNoTab(s: string)
    requires NoTab(s)
    ensures Split(s) == [s]
    decreases |s|
  {
    if s != [] {
      assert NoTab(s[1..]) by { assert forall k :: 0 <= k < |s| - 1 ==> s[1..][k] == s[k + 1]; }
      SplitNoTab(s[1..]);
      assert [s[0]] + s[1..] == s;
    }
  }

  /** The fields of a + "\t" + b are those of a followed by those of b. */
  lemma {:induction false} SplitAppend(a: string, b: string)
    ensures Split(a + [TAB] + b) == Split(a) + Split(b)
    decreases |a|
  {
    var s := a + [TAB] + b;
    if a == [] {
      assert s[0] == TAB && s[1..] == b;
    } else {
      assert s[0] == a[0];
      assert s[1..] == a[1..] + [TAB] + b;
      SplitAppend(a[1..], b);
    }
  }

  /** Joining the fields of s with tabs gives back s. */
  lemma {:induction false} JoinSplit(s: string)
    ensures Join(Split(s)) == s
    decreases |s|
  {
    FirstTabSpec(s);
    var k := FirstTab(s);
    if k == |s| {
      assert s[..k] == s;
      SplitNoTab(s);
    } else {
      var a, b := s[..k], s[k + 1..];
      assert s == a + [TAB] + b;
      SplitAppend(a, b);
      SplitNoTab(a);
      JoinSplit(b);
      var fs := [a] + Split(b);
      assert fs[1..] == Split(b);
      assert Join(fs) == a + [TAB] + Join(Split(b));
    }
  }

  /** Splitting a tab-join of tab-free fields gives back the fields. */
  lemma {:induction false} SplitJoin(fields: seq<string>)
    requires fields != []
    requires forall k :: 0 <= k < |fields| ==> NoTab(fields[k])
    ensures Split(Join(fields)) == fields
    decreases |fields|
  {
    if |fields| == 1 {
      SplitNoTab(fields[0]);
    } else {
      SplitJoin(fields[1..]);
      SplitAppend(fields[0], Join(fields[1..]));
      SplitNoTab(fields[0]);
      assert [fields[0]] + fields[1..] == fields;
    }
  }

  /** A string has no tab exactly when it has no tab to count. */
  lemma {:induction false} CountTabsZero(s: string)
    ensures CountTabs(s) == 0 <==> NoTab(s)
    decreases |s|
  {
    if s != [] {
      CountTabsZero(s[1..]);
      assert forall k :: 0 <= k < |s| - 1 ==> s[1..][k] == s[k + 1];
    }
  }

  /** FirstTab finds a tab, or the end, and passes no tab on the way. */
  lemma {:induction false} FirstTabSpec(s: string)
    ensures var k := FirstTab(s); (k < |s| ==> s[k] == TAB) && NoTab(s[..k])
    decreases |s|
  {
    if s != [] && s[0] != TAB {
      FirstTabSpec(s[1..]);
      var k := FirstTab(s[1..]);
      var u := s[1..][..k];
      var v := [s[0]] + u;
      assert s[..k + 1] == v;
      forall j | 0 <= j < |v| ensures v[j] != TAB {
        if j > 0 { assert v[j] == u[j - 1]; }
      }
    }
  }

  /** LastTab finds a tab, or -1, and no tab follows it. */
  lemma LastTabSpec(s: string)
    ensures LastTab(s) >= 0 ==> s[LastTab(s)] == TAB
    ensures NoTab(s[LastTab(s) + 1..])
  {
    LastTabAfter(s);
    NoTabAfter(s, LastTab(s));
  }

  /** A string with no tab after position k has a tab-free suffix there. */
  lemma NoTabAfter(s: string, k: int)
    requires -1 <= k < |s|
    requires forall j :: k < j < |s| ==> s[j] != TAB
    ensures NoTab(s[k + 1..])
  {
    var u := s[k + 1..];
    forall j | 0 <= j < |u| ensures u[j] != TAB {
      assert u[j] == s[k + 1 + j];
    }
  }

  /** The index form of LastTabSpec: every position after LastTab(s) holds
      a character other than a tab. */
  lemma {:induction false} LastTabAfter(s: string)
    ensures LastTab(s) >= 0 ==> s[LastTab(s)] == TAB
    ensures forall j :: LastTab(s) < j < |s| ==> s[j] != TAB
    decreases |s|
  {
    if s != [] && s[|s| - 1] != TAB {
      var t := s[..|s| - 1];
      LastTabAfter(t);
      assert LastTab(s) == LastTab(t);
      forall j | LastTab(s) < j < |s| ensures s[j] != TAB {
        if j < |t| { assert s[j] == t[j]; }
      }
    }
  }

  /** The last field is the text after the last tab; it is the whole
      string when there is no tab. */
  lemma LastField(s: string)
    ensures Split(s)[|Split(s)| - 1] == s[LastTab(s) + 1..]
  {
    LastTabSpec(s);
    var k := LastTab(s);
    if k < 0 {
      assert s[k + 1..] == s;
      SplitNoTab(s);
    } else {
      assert s == s[..k] + [TAB] + s[k + 1..];
      LastFieldAfterTab(s[..k], s[k + 1..]);
    }
  }

  lemma LastFieldAfterTab(a: string, b: string)
    requires NoTab(b)
    ensures Split(a + [TAB] + b)[|Split(a + [TAB] + b)| - 1] == b
  {
    SplitAppend(a, b);
    SplitNoTab(b);
  }

  /** The first field is the text before the first tab; it is the whole
      string when there is no tab. */
  lemma FirstField(s: string)
    ensures Split(s)[0] == s[..FirstTab(s)]
  {
    FirstTabSpec(s);
    var k := FirstTab(s);
    if k == |s| {
      assert s[..k] == s;
      SplitNoTab(s);
    } else {
      assert s == s[..k] + [TAB] + s[k + 1..];
      FirstFieldBeforeTab(s[..k], s[k + 1..]);
    }
  }

  lemma FirstFieldBeforeTab(a: string, b: string)
    requires NoTab(a)
    ensures Split(a + [TAB] + b)[0] == a
  {
    SplitAppend(a, b);
    SplitNoTab(a);
  }
}
