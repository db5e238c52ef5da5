/** The .NET string operations the project fixer relies on, all compared
    char by char. `Split`, `Replace`, `==` and `Except` are ordinal in .NET
    too; `StartsWith` and `EndsWith` with a string argument are culture-sensitive
    there, and are modelled as their ordinal versions. */
module Text {

  /** Ordinal `String.StartsWith`. */
  predicate StartsWith(s: string, prefix: string) {
    |prefix| <= |s| && s[..|prefix|] == prefix
  }

  /** Ordinal `String.EndsWith`. */
  predicate EndsWith(s: string, suffix: string) {
    |suffix| <= |s| && s[|s| - |suffix|..] == suffix
  }

  /** `pat` occurs in `s` starting at position `i`. */
  predicate OccursAt(s: string, pat: string, i: int) {
    0 <= i && i + |pat| <= |s| && s[i..i + |pat|] == pat
  }

  /** `pat` occurs somewhere in `s`. */
  predicate Contains(s: string, pat: string) {
    exists i | 0 <= i <= |s| :: OccursAt(s, pat, i)
  }

  // ---------------------------------------------------------------------------
  // String.Split(char) and String.Join(char, ...)
  // ---------------------------------------------------------------------------

  /** String.Join of a non-empty list: the parts with `sep` between neighbours. */
  function Join(parts: seq<string>, sep: char): string
    requires |parts| > 0
  {
    if |parts| == 1 then parts[0] else parts[0] + [sep] + Join(parts[1..], sep)
  }

  /** String.Join of any list; the empty list joins to the empty string. */
  function JoinAll(parts: seq<string>, sep: char): string {
    if |parts| == 0 then "" else Join(parts, sep)
  }

  /** String.Split(sep) without options: every separator ends a part, so empty
      parts are kept and the result is never empty. Split is the inverse of Join. */
  function Split(s: string, sep: char): (parts: seq<string>)
    ensures |parts| > 0
    ensures forall i :: 0 <= i < |parts| ==> sep !in parts[i]
    ensures Join(parts, sep) == s
    decreases |s|
  {
    if |s| == 0 then [""]
    else
      var rest := Split(s[1..], sep);
      if s[0] == sep then [""] + rest
      else [[s[0]] + rest[0]] + rest[1..]
  }

  lemma {:induction false} SplitWithoutSeparator(s: string, sep: char)
    requires sep !in s
    ensures Split(s, sep) == [s]
    decreases |s|
  {
    if |s| > 0 {
      SplitWithoutSeparator(s[1..], sep);
      assert [s[0]] + s[1..] == s;
    }
  }

  lemma {:induction false} SplitAfterFirstPart(a: string, sep: char, b: string)
    requires sep !in a
    ensures Split(a + [sep] + b, sep) == [a] + Split(b, sep)
    decreases |a|
  {
    if |a| == 0 {
      assert a + [sep] + b == [sep] + b;
      assert ([sep] + b)[1..] == b;
    } else {
      var s := a + [sep] + b;
      assert s[1..] == a[1..] + [sep] + b;
      SplitAfterFirstPart(a[1..], sep, b);
      assert [a[0]] + a[1..] == a;
    }
  }

  /** Split undoes Join when no part contains the separator. */
  lemma {:induction false} SplitJoin(parts: seq<string>, sep: char)
    requires |parts| > 0
    requires forall i :: 0 <= i < |parts| ==> sep !in parts[i]
    ensures Split(Join(parts, sep), sep) == parts
    decreases |parts|
  {
    if |parts| == 1 {
      SplitWithoutSeparator(parts[0], sep);
    } else {
      SplitJoin(parts[1..], sep);
      SplitAfterFirstPart(parts[0], sep, Join(parts[1..], sep));
      assert [parts[0]] + parts[1..] == parts;
    }
  }

  /** StringSplitOptions.RemoveEmptyEntries: drop the empty parts, keep the order. */
  function RemoveEmpty(parts: seq<string>): (r: seq<string>)
    ensures forall x :: x in r <==> x in parts && x != ""
    ensures |r| <= |parts|
    ensures (forall i :: 0 <= i < |parts| ==> parts[i] != "") ==> r == parts
  {
    if |parts| == 0 then []
    else
      var rest := RemoveEmpty(parts[1..]);
      assert parts == [parts[0]] + parts[1..];
      if parts[0] == "" then rest else [parts[0]] + rest
  }

  // ---------------------------------------------------------------------------
  // String.Trim()
  // ---------------------------------------------------------------------------

  /** Char.IsWhiteSpace: the space, line and paragraph separators of Unicode,
      the C0 controls TAB..CR, NEL and NO-BREAK SPACE. */
  predicate IsWhiteSpace(c: char) {
    || c == ' ' || ('\t' <= c <= '\r') || c == '\U{0085}' || c == '\U{00A0}'
    || c == '\U{1680}' || ('\U{2000}' <= c <= '\U{200A}')
    || c == '\U{2028}' || c == '\U{2029}' || c == '\U{202F}' || c == '\U{205F}'
    || c == '\U{3000}'
  }

  function TrimStart(s: string): (r: string)
    ensures EndsWith(s, r)
    ensures |r| > 0 ==> !IsWhiteSpace(r[0])
    ensures forall i :: 0 <= i < |s| - |r| ==> IsWhiteSpace(s[i])
  {
    if |s| > 0 && IsWhiteSpace(s[0]) then
      var r := TrimStart(s[1..]);
      assert s[|s| - |r|..] == s[1..][|s[1..]| - |r|..];
      assert forall i :: 1 <= i < |s| - |r| ==> s[i] == s[1..][i - 1];
      r
    else s
  }

  function TrimEnd(s: string): (r: string)
    ensures StartsWith(s, r)
    ensures |r| > 0 ==> !IsWhiteSpace(r[|r| - 1])
    ensures forall i :: |r| <= i < |s| ==> IsWhiteSpace(s[i])
  {
    if |s| > 0 && IsWhiteSpace(s[|s| - 1]) then
      var r := TrimEnd(s[..|s| - 1]);
      assert s[..|r|] == s[..|s| - 1][..|r|];
      assert forall i :: |r| <= i < |s| - 1 ==> s[i] == s[..|s| - 1][i];
      r
    else s
  }

  function Trim(s: string): string {
    TrimEnd(TrimStart(s))
  }

  // ---------------------------------------------------------------------------
  // String.Replace(string, string)
  // ---------------------------------------------------------------------------

  /** Ordinal String.Replace: scan left to right, replacing each occurrence
      of `pat` and resuming after it, so occurrences never overlap. */
  function ReplaceAll(s: string, pat: string, rep: string): string
    requires |pat| > 0
    decreases |s|
  {
    if |s| < |pat| then s
    else if s[..|pat|] == pat then rep + ReplaceAll(s[|pat|..], pat, rep)
    else [s[0]] + ReplaceAll(s[1..], pat, rep)
  }

  /** No occurrence in `s` means no occurrence in its tail. */
  lemma {:induction false} AbsentFromTail(s: string, pat: string)
    requires |s| > 0 && !Contains(s, pat)
    ensures !Contains(s[1..], pat)
  {
    forall i | 0 <= i <= |s[1..]| ensures !OccursAt(s[1..], pat, i) {
      assert !OccursAt(s, pat, i + 1);
      if i + |pat| <= |s[1..]| {
        assert s[1..][i..i + |pat|] == s[i + 1..i + 1 + |pat|];
      }
    }
  }

  /** A string without an occurrence of the pattern is left as it is. */
  lemma {:induction false} ReplaceAbsent(s: string, pat: string, rep: string)
    requires |pat| > 0 && !Contains(s, pat)
    ensures ReplaceAll(s, pat, rep) == s
    decreases |s|
  {
    if |s| >= |pat| {
      assert !OccursAt(s, pat, 0);
      assert s[0..|pat|] == s[..|pat|];
      ReplaceNoMatch(s, pat, rep);
      AbsentFromTail(s, pat);
      ReplaceAbsent(s[1..], pat, rep);
      assert [s[0]] + s[1..] == s;
    }
  }

  lemma {:induction false} ReplaceShort(s: string, pat: string, rep: string)
    requires 0 < |pat| && |s| < |pat|
    ensures ReplaceAll(s, pat, rep) == s
  {
  }

  lemma {:induction false} ReplaceMatch(s: string, pat: string, rep: string)
    requires 0 < |pat| && StartsWith(s, pat)
    ensures ReplaceAll(s, pat, rep) == rep + ReplaceAll(s[|pat|..], pat, rep)
  {
  }

  lemma {:induction false} ReplaceNoMatch(s: string, pat: string, rep: string)
    requires 0 < |pat| <= |s| && !StartsWith(s, pat)
    ensures ReplaceAll(s, pat, rep) == [s[0]] + ReplaceAll(s[1..], pat, rep)
  {
  }

  /** A match at the front of `a + [sep] + b` lies wholly inside `a`. */
  lemma {:induction false} MatchInsideFirstPart(a: string, sep: char, b: string, pat: string)
    requires sep !in pat
    requires StartsWith(a + [sep] + b, pat)
    ensures StartsWith(a, pat)
  {
    var s := a + [sep] + b;
    assert forall k | 0 <= k < |pat| :: pat[k] == s[k];
    assert s[|a|] == sep;
    assert |pat| <= |a|;
    assert s[..|pat|] == a[..|pat|];
  }

  /** The induction step of ReplaceAroundSeparator when `pat` matches at the front. */
  lemma {:induction false} SeparatorStepMatch(a: string, sep: char, b: string, pat: string, rep: string)
    requires |pat| > 0 && sep !in pat
    requires StartsWith(a + [sep] + b, pat) && |pat| <= |a|
    requires ReplaceAll(a[|pat|..] + [sep] + b, pat, rep)
             == ReplaceAll(a[|pat|..], pat, rep) + [sep] + ReplaceAll(b, pat, rep)
    ensures ReplaceAll(a + [sep] + b, pat, rep)
            == ReplaceAll(a, pat, rep) + [sep] + ReplaceAll(b, pat, rep)
  {
    var s := a + [sep] + b;
    MatchInsideFirstPart(a, sep, b, pat);
    ReplaceMatch(s, pat, rep);
    ReplaceMatch(a, pat, rep);
    assert s[|pat|..] == a[|pat|..] + [sep] + b;
  }

  lemma {:induction false} Associate(x: string, y: string, z: string, w: string)
    ensures x + (y + z + w) == (x + y) + z + w
  {
  }

  /** When the front of `a + [sep] + b` does not match, neither does the front of `a`. */
  lemma {:induction false} ReplaceUnmatchedFront(a: string, sep: char, b: string, pat: string, rep: string)
    requires |pat| > 0 && |a| > 0 && !StartsWith(a + [sep] + b, pat)
    ensures ReplaceAll(a, pat, rep) == [a[0]] + ReplaceAll(a[1..], pat, rep)
  {
    if |a| >= |pat| {
      assert a[..|pat|] == (a + [sep] + b)[..|pat|];
      ReplaceNoMatch(a, pat, rep);
    } else {
      ReplaceShort(a, pat, rep);
      ReplaceShort(a[1..], pat, rep);
      assert a == [a[0]] + a[1..];
    }
  }

  /** The induction step of ReplaceAroundSeparator when the front does not match. */
  lemma {:induction false} SeparatorStepNoMatch(a: string, sep: char, b: string, pat: string, rep: string)
    requires |pat| > 0 && |a| > 0
    requires |pat| <= |a + [sep] + b| && !StartsWith(a + [sep] + b, pat)
    requires ReplaceAll(a[1..] + [sep] + b, pat, rep)
             == ReplaceAll(a[1..], pat, rep) + [sep] + ReplaceAll(b, pat, rep)
    ensures ReplaceAll(a + [sep] + b, pat, rep)
            == ReplaceAll(a, pat, rep) + [sep] + ReplaceAll(b, pat, rep)
  {
    var s := a + [sep] + b;
    ReplaceNoMatch(s, pat, rep);
    assert s[1..] == a[1..] + [sep] + b;
    ReplaceUnmatchedFront(a, sep, b, pat, rep);
    var ra, rb := ReplaceAll(a[1..], pat, rep), ReplaceAll(b, pat, rep);
    assert ReplaceAll(s, pat, rep) == [s[0]] + (ra + [sep] + rb);
    assert s[0] == a[0];
    Associate([a[0]], ra, [sep], rb);
  }

  /** A separator that cannot be part of `pat` splits the replacement in two. */
  lemma {:induction false} ReplaceAroundSeparator(a: string, sep: char, b: string, pat: string, rep: string)
    requires |pat| > 0 && sep !in pat
    ensures ReplaceAll(a + [sep] + b, pat, rep)
            == ReplaceAll(a, pat, rep) + [sep] + ReplaceAll(b, pat, rep)
    decreases |a|
  {
    var s := a + [sep] + b;
    if |s| < |pat| {
      ReplaceShort(s, pat, rep);
      ReplaceShort(a, pat, rep);
      ReplaceShort(b, pat, rep);
    } else if |a| == 0 {
      assert s == [sep] + b;
      assert s[0] != pat[0];
      ReplaceNoMatch(s, pat, rep);
      assert s[1..] == b;
    } else if StartsWith(s, pat) {
      MatchInsideFirstPart(a, sep, b, pat);
      ReplaceAroundSeparator(a[|pat|..], sep, b, pat, rep);
      SeparatorStepMatch(a, sep, b, pat, rep);
    } else {
      ReplaceAroundSeparator(a[1..], sep, b, pat, rep);
      SeparatorStepNoMatch(a, sep, b, pat, rep);
    }
  }

  /** Each part with every occurrence of `pat` replaced. */
  function ReplaceEach(parts: seq<string>, pat: string, rep: string): (r: seq<string>)
    requires |pat| > 0
    ensures |r| == |parts|
    ensures forall i :: 0 <= i < |parts| ==> r[i] == ReplaceAll(parts[i], pat, rep)
  {
    if |parts| == 0 then [] else [ReplaceAll(parts[0], pat, rep)] + ReplaceEach(parts[1..], pat, rep)
  }

  /** Replacing in a joined string is replacing in every part, provided the
      separator cannot occur inside the pattern. */
  lemma {:induction false} ReplaceInJoin(parts: seq<string>, sep: char, pat: string, rep: string)
    requires |parts| > 0
    requires |pat| > 0 && sep !in pat
    ensures ReplaceAll(Join(parts, sep), pat, rep) == Join(ReplaceEach(parts, pat, rep), sep)
    decreases |parts|
  {
    if |parts| > 1 {
      ReplaceInJoin(parts[1..], sep, pat, rep);
      ReplaceAroundSeparator(parts[0], sep, Join(parts[1..], sep), pat, rep);
      assert ReplaceEach(parts, pat, rep)[1..] == ReplaceEach(parts[1..], pat, rep);
    }
  }

  // ---------------------------------------------------------------------------
  // String.ToUpper()
  // ---------------------------------------------------------------------------

  function UpperChar(c: char): char {
    if 'a' <= c <= 'z' then (c as int - 32) as char else c
  }

  /** Upper-casing of the ASCII letters (all that the configuration labels hold). */
  function Upper(s: string): string {
    seq(|s|, i requires 0 <= i < |s| => UpperChar(s[i]))
  }

  // ---------------------------------------------------------------------------
  // Path.GetFileNameWithoutExtension (Windows separators)
  // ---------------------------------------------------------------------------

  predicate IsDirectorySeparator(c: char) {
    c == '\\' || c == '/'
  }

  /** Path.GetFileName: the longest suffix free of directory separators. */
  function FileName(path: string): (r: string)
    ensures EndsWith(path, r)
    ensures forall i :: 0 <= i < |r| ==> !IsDirectorySeparator(r[i])
    ensures |r| < |path| ==> IsDirectorySeparator(path[|path| - |r| - 1])
    decreases |path|
  {
    if |path| == 0 || IsDirectorySeparator(path[|path| - 1]) then ""
    else
      var front := path[..|path| - 1];
      var name := FileName(front);
      assert path == front + [path[|path| - 1]];
      assert |name| < |front| ==> path[|path| - |name| - 2] == front[|front| - |name| - 1];
      name + [path[|path| - 1]]
  }

  /** Everything before the last '.', or the whole name when it has none. */
  function WithoutExtension(name: string): (r: string)
    ensures '.' !in name ==> r == name
    ensures '.' in name ==> |r| < |name| && name[..|r|] == r && name[|r|] == '.'
                            && '.' !in name[|r| + 1..]
    decreases |name|
  {
    if '.' !in name then name
    else if name[|name| - 1] == '.' then name[..|name| - 1]
    else
      var prefix := name[..|name| - 1];
      assert name == prefix + [name[|name| - 1]];
      var r := WithoutExtension(prefix);
      assert name[|r| + 1..] == prefix[|r| + 1..] + [name[|name| - 1]];
      r
  }

  /** Path.GetFileNameWithoutExtension. */
  function FileStem(path: string): string {
    WithoutExtension(FileName(path))
  }

  // ---------------------------------------------------------------------------
  // Enumerable.Except
  // ---------------------------------------------------------------------------

  /** Position of the first occurrence of `x` in `xs`. */
  function FirstIndex<T(==)>(xs: seq<T>, x: T): (k: nat)
    requires x in xs
    ensures k < |xs| && xs[k] == x && x !in xs[..k]
  {
    if xs[0] == x then 0 else 1 + FirstIndex(xs[1..], x)
  }

  /** Enumerable.Except: the elements of `xs` that are not in `removed`, each
      once, in the order of their first occurrence in `xs`. */
  function Except<T(==,!new)>(xs: seq<T>, removed: set<T>): (r: seq<T>)
    ensures forall x :: x in r <==> x in xs && x !in removed
    ensures forall i, j :: 0 <= i < j < |r| ==> r[i] != r[j]
    ensures forall i, j :: 0 <= i < j < |r| ==> FirstIndex(xs, r[i]) < FirstIndex(xs, r[j])
    decreases |xs|
  {
    if |xs| == 0 then []
    else
      assert xs == [xs[0]] + xs[1..];
      if xs[0] in removed then Except(xs[1..], removed)
      else [xs[0]] + Except(xs[1..], removed + {xs[0]})
  }
}
