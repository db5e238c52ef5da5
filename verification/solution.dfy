/** CleanSlnFile (VSProjectFixer/Program.cs:1136-1163): the solution file loses
    its source-control section, from the line opening
    `GlobalSection(SourceCodeControl)` to the next `EndGlobalSection` line, both
    included. Markers are recognised after trimming white space; lines that are
    kept are written unchanged. */
module Solution {
  import opened Text

  const SectionStart := "GlobalSection(SourceCodeControl)"
  const SectionEnd := "EndGlobalSection"

  predicate OpensSection(line: string) {
    StartsWith(Trim(line), SectionStart)
  }

  predicate ClosesSection(line: string) {
    StartsWith(Trim(line), SectionEnd)
  }

  /** The loop of CleanSlnFile from a given line on, `pruning` being the state
      of its `prune` flag. */
  function Clean(lines: seq<string>, pruning: bool): (r: seq<string>)
    ensures |r| <= |lines|
    ensures forall i :: 0 <= i < |r| ==> r[i] in lines
    ensures forall i :: 0 <= i < |r| ==> !OpensSection(r[i])
    decreases |lines|
  {
    if |lines| == 0 then []
    else if !pruning && OpensSection(lines[0]) then Clean(lines[1..], true)
    else if pruning && ClosesSection(lines[0]) then Clean(lines[1..], false)
    else if pruning then Clean(lines[1..], true)
    else [lines[0]] + Clean(lines[1..], false)
  }

  /** The lines the solution file is rewritten with. */
  function CleanSln(lines: seq<string>): seq<string> {
    Clean(lines, false)
  }

  /** Lines outside any section are kept as they are. */
  lemma {:induction false} CleanKeepsPlainLines(lines: seq<string>)
    requires forall i :: 0 <= i < |lines| ==> !OpensSection(lines[i])
    ensures Clean(lines, false) == lines
    decreases |lines|
  {
    if |lines| > 0 {
      CleanKeepsPlainLines(lines[1..]);
    }
  }

  /** Inside a section everything up to and including the closing line goes. */
  lemma {:induction false} CleanSkipsSection(inside: seq<string>, close: string, after: seq<string>)
    requires forall i :: 0 <= i < |inside| ==> !ClosesSection(inside[i])
    requires ClosesSection(close)
    ensures Clean(inside + [close] + after, true) == Clean(after, false)
    decreases |inside|
  {
    if |inside| == 0 {
      assert (inside + [close] + after)[1..] == after;
    } else {
      assert (inside + [close] + after)[1..] == inside[1..] + [close] + after;
      CleanSkipsSection(inside[1..], close, after);
    }
  }

  /** A section that is never closed removes the rest of the file. */
  lemma {:induction false} CleanDropsUnclosed(inside: seq<string>)
    requires forall i :: 0 <= i < |inside| ==> !ClosesSection(inside[i])
    ensures Clean(inside, true) == []
    decreases |inside|
  {
    if |inside| > 0 {
      CleanDropsUnclosed(inside[1..]);
    }
  }

  /** Plain lines before a section are kept, so the prefix up to the opening
      line survives and the cleaning resumes after it. */
  lemma {:induction false} CleanPrefix(before: seq<string>, rest: seq<string>)
    requires forall i :: 0 <= i < |before| ==> !OpensSection(before[i])
    ensures Clean(before + rest, false) == before + Clean(rest, false)
    decreases |before|
  {
    if |before| > 0 {
      var all := before + rest;
      var tail := before[1..];
      assert all[0] == before[0] && !OpensSection(all[0]);
      assert all[1..] == tail + rest;
      assert Clean(all, false) == [before[0]] + Clean(tail + rest, false);
      assert forall i :: 0 <= i < |tail| ==> tail[i] == before[i + 1];
      CleanPrefix(tail, rest);
      Regroup(before, Clean(rest, false));
    } else {
      assert before + rest == rest;
      assert before + Clean(rest, false) == Clean(rest, false);
    }
  }

  /** Sequence regrouping. These three helpers state no property of the
      solution file; they exist only to keep CleanPrefix and
      CleanRemovesSection within the verifier's budget, by proving the
      regrouping apart from the line predicates, which the solver would
      otherwise apply to every index it introduces. */
  lemma {:induction false} Reassociate<T>(a: seq<T>, x: T, b: seq<T>, y: T, c: seq<T>)
    ensures a + [x] + b + [y] + c == a + ([x] + (b + [y] + c))
  {
  }

  lemma {:induction false} Reassociate3<T>(a: seq<T>, x: T, b: seq<T>)
    ensures a + [x] + b == a + ([x] + b)
  {
  }

  lemma {:induction false} Regroup<T>(xs: seq<T>, ys: seq<T>)
    requires |xs| > 0
    ensures xs + ys == [xs[0]] + (xs[1..] + ys)
  {
    assert xs == [xs[0]] + xs[1..];
  }

  /** One source-control section in the middle of a solution: the lines before
      it stay, the section goes, and the cleaning goes on after it. */
  lemma {:induction false} CleanRemovesSection(before: seq<string>, open: string, inside: seq<string>, close: string, after: seq<string>)
    requires forall i :: 0 <= i < |before| ==> !OpensSection(before[i])
    requires OpensSection(open)
    requires forall i :: 0 <= i < |inside| ==> !ClosesSection(inside[i])
    requires ClosesSection(close)
    ensures CleanSln(before + [open] + inside + [close] + after) == before + CleanSln(after)
  {
    var tail := inside + [close] + after;
    var rest := [open] + tail;
    Reassociate(before, open, inside, close, after);
    assert Clean(before + rest, false) == before + Clean(rest, false) by {
      CleanPrefix(before, rest);
    }
    assert Clean(rest, false) == Clean(after, false) by {
      CleanOpens(open, tail);
      CleanSkipsSection(inside, close, after);
    }
  }

  /** An opening line starts the pruning and is itself dropped. */
  lemma {:induction false} CleanOpens(open: string, tail: seq<string>)
    requires OpensSection(open)
    ensures Clean([open] + tail, false) == Clean(tail, true)
  {
    assert ([open] + tail)[1..] == tail;
  }

  /** Cleaning a cleaned solution changes nothing. */
  lemma {:induction false} CleanSlnIdempotent(lines: seq<string>)
    ensures CleanSln(CleanSln(lines)) == CleanSln(lines)
  {
    CleanKeepsPlainLines(CleanSln(lines));
  }

  /** A section that is opened and never closed takes the rest of the solution with it. */
  lemma {:induction false} CleanRemovesUnclosedSection(before: seq<string>, open: string, inside: seq<string>)
    requires forall i :: 0 <= i < |before| ==> !OpensSection(before[i])
    requires OpensSection(open)
    requires forall i :: 0 <= i < |inside| ==> !ClosesSection(inside[i])
    ensures CleanSln(before + [open] + inside) == before
  {
    Reassociate3(before, open, inside);
    CleanPrefix(before, [open] + inside);
    CleanOpens(open, inside);
    CleanDropsUnclosed(inside);
    assert before + [] == before;
  }
}
