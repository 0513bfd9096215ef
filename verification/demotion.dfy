/**
 Object-literal heading demotion (src/index.ts lines 130-146): one pass over the
 lines of the reference text with a single flag. A line containing the
 object-literal marker sets the flag, a line containing the divider clears it (the
 clear is tested second, so it wins on a line with both), and while the flag is set
 every line containing "###" gets one more "#".
 */
module Demotion {
  import opened Text

  /** The heading the generator writes for an object-literal member. */
  const ObjectLiteralMarker: string := "### ▪ **"
  /** The horizontal divider that ends a member's section. */
  const Divider: string := "___"
  const HeadingMarker: string := "###"
  const NewLine: char := '\n'

  predicate OpensObjectLiteral(line: string) {
    Includes(line, ObjectLiteralMarker)
  }

  predicate IsDivider(line: string) {
    Includes(line, Divider)
  }

  predicate IsHeading(line: string) {
    Includes(line, HeadingMarker)
  }

  /** The flag after one more line: set by the marker, then cleared by the divider. */
  function StepFlag(inObjectLiteral: bool, line: string): bool {
    var afterMarker := if OpensObjectLiteral(line) then true else inObjectLiteral;
    if IsDivider(line) then false else afterMarker
  }

  /** The line pushed for `line` once the flag has been updated by it. */
  function DemoteLine(inObjectLiteral: bool, line: string): string {
    if inObjectLiteral && IsHeading(line) then "#" + line else line
  }

  /** The flag as a property of the lines read so far: some marker line has been
      read, and neither it nor any later line contained the divider. */
  ghost predicate OpenAtEnd(prefix: seq<string>) {
    exists j :: 0 <= j < |prefix| && OpensObjectLiteral(prefix[j]) && NoDividerFrom(prefix, j)
  }

  /** No line from index `j` on contains the divider. */
  ghost predicate NoDividerFrom(lines: seq<string>, j: nat) {
    forall m :: j <= m < |lines| ==> !IsDivider(lines[m])
  }

  /** The flag once line `k` has been read. */
  ghost predicate FlagAt(lines: seq<string>, k: nat)
    requires k < |lines|
  {
    OpenAtEnd(lines[..k + 1])
  }

  /** The flag at a line depends only on the lines up to it. */
  lemma FlagAtPrefix(lines: seq<string>, n: nat, k: nat)
    requires k < n <= |lines|
    ensures FlagAt(lines[..n], k) == FlagAt(lines, k)
  {
    assert lines[..n][..k + 1] == lines[..k + 1];
  }

  /** Reading one more line moves the flag exactly as the loop body does. */
  lemma OpenAtEndStep(prefix: seq<string>, line: string)
    ensures OpenAtEnd(prefix + [line]) == StepFlag(OpenAtEnd(prefix), line)
  {
    var lines := prefix + [line];
    assert lines[|prefix|] == line;
    assert forall m :: 0 <= m < |prefix| ==> lines[m] == prefix[m];
    if OpenAtEnd(lines) {
      var j :| 0 <= j < |lines| && OpensObjectLiteral(lines[j]) && NoDividerFrom(lines, j);
      assert !IsDivider(line);
      if j < |prefix| {
        assert NoDividerFrom(prefix, j);
      }
    }
    if StepFlag(OpenAtEnd(prefix), line) {
      if OpensObjectLiteral(line) {
        assert NoDividerFrom(lines, |prefix|);
      } else {
        var j :| 0 <= j < |prefix| && OpensObjectLiteral(prefix[j]) && NoDividerFrom(prefix, j);
        assert NoDividerFrom(lines, j);
      }
    }
  }

  /** The loop's state after a prefix of the lines: the lines pushed so far and the flag. */
  datatype Scan = Scan(updated: seq<string>, inObjectLiteral: bool)

  /** The loop of lines 133-145 as a fold over the lines. */
  function ScanLines(lines: seq<string>): (s: Scan)
    ensures |s.updated| == |lines|
    ensures s.inObjectLiteral == OpenAtEnd(lines)
    ensures forall k :: 0 <= k < |lines| ==> s.updated[k] == DemoteLine(FlagAt(lines, k), lines[k])
    decreases |lines|
  {
    if |lines| == 0 then
      Scan([], false)
    else
      var n := |lines| - 1;
      var previous := ScanLines(lines[..n]);
      var inObjectLiteral := StepFlag(previous.inObjectLiteral, lines[n]);
      var updated := previous.updated + [DemoteLine(inObjectLiteral, lines[n])];
      assert lines[..n] + [lines[n]] == lines;
      OpenAtEndStep(lines[..n], lines[n]);
      forall k | 0 <= k < |lines|
        ensures updated[k] == DemoteLine(FlagAt(lines, k), lines[k])
      {
        if k < n {
          FlagAtPrefix(lines, n, k);
          assert lines[..n][k] == lines[k];
        } else {
          assert lines[..k + 1] == lines;
        }
      }
      Scan(updated, inObjectLiteral)
  }

  /** The lines the loop pushes. */
  function DemoteLines(lines: seq<string>): seq<string> {
    ScanLines(lines).updated
  }

  /** The loop as written, pushing one line per iteration; it computes the fold. */
  method DemoteLoop(lines: seq<string>) returns (updatedLines: seq<string>)
    ensures |updatedLines| == |lines|
    ensures forall k :: 0 <= k < |lines| ==> updatedLines[k] == DemoteLine(FlagAt(lines, k), lines[k])
  {
    updatedLines := [];
    var isInObjectLiteral := false;
    for i := 0 to |lines|
      invariant updatedLines == ScanLines(lines[..i]).updated
      invariant isInObjectLiteral == ScanLines(lines[..i]).inObjectLiteral
    {
      var line := lines[i];
      ghost var before := isInObjectLiteral;
      if Includes(line, ObjectLiteralMarker) {
        isInObjectLiteral := true;
      }
      if Includes(line, Divider) {
        isInObjectLiteral := false;
      }
      assert isInObjectLiteral == StepFlag(before, line);
      if isInObjectLiteral && Includes(line, HeadingMarker) {
        updatedLines := updatedLines + ["#" + line];
      } else {
        updatedLines := updatedLines + [line];
      }
      assert lines[..i + 1][..i] == lines[..i];
    }
    assert lines[..|lines|] == lines;
  }

  /** Each output line is its input line, with one "#" prepended exactly when the
      flag is set after reading it and the line contains "###". */
  lemma DemoteLinesShape(lines: seq<string>, k: nat)
    requires k < |lines|
    ensures |DemoteLines(lines)| == |lines|
    ensures DemoteLines(lines)[k] == lines[k] || DemoteLines(lines)[k] == "#" + lines[k]
    ensures DemoteLines(lines)[k] == "#" + lines[k] <==> FlagAt(lines, k) && IsHeading(lines[k])
  {
    assert |"#" + lines[k]| == |lines[k]| + 1;
  }

  /** Lines before the first marker line are untouched. */
  lemma UntouchedBeforeMarker(lines: seq<string>, k: nat)
    requires k < |lines|
    requires forall j :: 0 <= j <= k ==> !OpensObjectLiteral(lines[j])
    ensures DemoteLines(lines)[k] == lines[k]
  {
    assert !FlagAt(lines, k);
  }

  /** The marker line itself is demoted, unless it also contains the divider. */
  lemma MarkerLineDemoted(lines: seq<string>, k: nat)
    requires k < |lines|
    requires OpensObjectLiteral(lines[k]) && !IsDivider(lines[k])
    ensures DemoteLines(lines)[k] == "#" + lines[k]
  {
    var prefix := lines[..k + 1];
    assert NoDividerFrom(prefix, k);
    assert OpenAtEnd(prefix);
    IncludesPrefixOf(lines[k], ObjectLiteralMarker, HeadingMarker, 0);
  }

  /** A divider line is never demoted: the clear wins over a marker on the same line. */
  lemma DividerLineUntouched(lines: seq<string>, k: nat)
    requires k < |lines|
    requires IsDivider(lines[k])
    ensures DemoteLines(lines)[k] == lines[k]
  {
    var prefix := lines[..k + 1];
    forall j | 0 <= j < |prefix|
      ensures !NoDividerFrom(prefix, j)
    {
      assert IsDivider(prefix[k]);
    }
  }

  /** Without any marker line the lines are returned unchanged. */
  lemma NoMarkerNoChange(lines: seq<string>)
    requires forall k :: 0 <= k < |lines| ==> !OpensObjectLiteral(lines[k])
    ensures DemoteLines(lines) == lines
  {
    forall k | 0 <= k < |lines|
      ensures DemoteLines(lines)[k] == lines[k]
    {
      UntouchedBeforeMarker(lines, k);
    }
  }

  /** The demotion step over the whole text: split on newlines, scan, join. */
  function DemoteObjectLiterals(docs: string): (r: string)
    ensures Split(r, NewLine) == DemoteLines(Split(docs, NewLine))
  {
    var lines := Split(docs, NewLine);
    var updated := DemoteLines(lines);
    forall k | 0 <= k < |updated|
      ensures NewLine !in updated[k]
    {
      DemoteLinesShape(lines, k);
    }
    SplitJoin(updated, NewLine);
    Join(updated, NewLine)
  }

  /** Demotion keeps the number of lines of the text. */
  lemma DemotionKeepsLineCount(docs: string)
    ensures |Split(DemoteObjectLiterals(docs), NewLine)| == |Split(docs, NewLine)|
  {
  }

  /** A text without the object-literal marker comes back unchanged. */
  lemma NoMarkerTextUnchanged(docs: string)
    requires !Includes(docs, ObjectLiteralMarker)
    ensures DemoteObjectLiterals(docs) == docs
  {
    var lines := Split(docs, NewLine);
    JoinSplit(docs, NewLine);
    forall k | 0 <= k < |lines|
      ensures !OpensObjectLiteral(lines[k])
    {
      if OpensObjectLiteral(lines[k]) {
        IncludesInJoin(lines, NewLine, k, ObjectLiteralMarker);
        assert false;
      }
    }
    NoMarkerNoChange(lines);
  }

  /** A heading after an object-literal marker line, with no divider on the marker line
      or anywhere up to the heading, drops one level. */
  lemma HeadingUnderObjectLiteral(lines: seq<string>, i: nat, k: nat)
    requires i <= k < |lines|
    requires OpensObjectLiteral(lines[i])
    requires forall m :: i <= m <= k ==> !IsDivider(lines[m])
    requires IsHeading(lines[k])
    ensures DemoteLines(lines)[k] == "#" + lines[k]
  {
    var prefix := lines[..k + 1];
    assert prefix[i] == lines[i];
    assert NoDividerFrom(prefix, i);
  }

  /** A heading after a divider line, with no marker line between them, keeps its level. */
  lemma HeadingAfterDivider(lines: seq<string>, j: nat, k: nat)
    requires j <= k < |lines|
    requires IsDivider(lines[j])
    requires forall m :: j < m <= k ==> !OpensObjectLiteral(lines[m])
    ensures DemoteLines(lines)[k] == lines[k]
  {
    var prefix := lines[..k + 1];
    forall i | 0 <= i < |prefix| && OpensObjectLiteral(prefix[i])
      ensures !NoDividerFrom(prefix, i)
    {
      assert prefix[j] == lines[j];
    }
  }
}
