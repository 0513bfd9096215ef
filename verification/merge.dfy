/**
 The merge loop (src/index.ts lines 84-102): every sorted path is either appended
 to the reference text and deleted, deleted only, kept, or removed as a directory.
 File contents are an input map; a path the map lacks is a file that cannot be read.
 Which paths lie inside a directory is read off the path names.
 */
module Merge {
  import opened Text
  import opened Sequences
  import opened Results

  /** Appended after every merged file: two newlines, a horizontal rule, two newlines. */
  const Separator: string := "\n\n<hr />\n\n"

  const MarkdownMarker: string := ".md"
  const ReadmeName: string := "README.md"
  const SummaryName: string := "SUMMARY.md"
  const GlobalsName: string := "globals.md"

  /** The loop's file test: ".md" occurs at index 1 or later. */
  predicate IsMarkdown(path: string) {
    IncludesFrom(path, MarkdownMarker, 1)
  }

  /** "README.md" occurs at index 1 or later: the file is neither merged nor deleted. */
  predicate IsReadme(path: string) {
    IncludesFrom(path, ReadmeName, 1)
  }

  /** "SUMMARY.md" or "globals.md" occurs at index 1 or later. */
  predicate IsIndexPage(path: string) {
    IncludesFrom(path, SummaryName, 1) || IncludesFrom(path, GlobalsName, 1)
  }

  /** The paths whose content goes into the reference text. */
  predicate IsMergeEligible(path: string) {
    IsMarkdown(path) && !IsReadme(path) && !IsIndexPage(path)
  }

  /** What the loop does with one path. */
  datatype Action =
    | MergeAndDelete(path: string)  // content appended to the reference, file unlinked
    | DeleteOnly(path: string)      // file unlinked, content dropped
    | Keep(path: string)            // file left on disk and not merged
    | RemoveDir(path: string)       // path removed as a directory

  /** Whether the action reads the file into the reference text. */
  predicate Merges(a: Action) {
    a.MergeAndDelete?
  }

  /** Whether the action unlinks the file. */
  predicate Unlinks(a: Action) {
    a.MergeAndDelete? || a.DeleteOnly?
  }

  /** The loop body's decision for one path: the outer test at line 85, the merge
      test at line 86 and the unlink test at line 96. */
  function Classify(path: string): (a: Action)
    ensures a.path == path
    ensures Merges(a) <==> IsMergeEligible(path)
    ensures Unlinks(a) <==> IsMarkdown(path) && !IsReadme(path)
    ensures a.RemoveDir? <==> !IsMarkdown(path)
  {
    if IsMarkdown(path) then
      var merge := !IsReadme(path) && !IncludesFrom(path, SummaryName, 1) && !IncludesFrom(path, GlobalsName, 1);
      var unlink := !IsReadme(path);
      if merge then MergeAndDelete(path)
      else if unlink then DeleteOnly(path)
      else Keep(path)
    else
      RemoveDir(path)
  }

  /** "README.md" at index 1 or later puts ".md" at index 7 or later. */
  lemma ReadmeIsMarkdown(path: string)
    requires IsReadme(path)
    ensures IsMarkdown(path)
  {
    IncludesInfixOf(path, ReadmeName, MarkdownMarker, 6, 1);
  }

  /** "SUMMARY.md" or "globals.md" at index 1 or later puts ".md" at index 1 or later. */
  lemma IndexPageIsMarkdown(path: string)
    requires IsIndexPage(path)
    ensures IsMarkdown(path)
  {
    if IncludesFrom(path, SummaryName, 1) {
      IncludesInfixOf(path, SummaryName, MarkdownMarker, 7, 1);
    } else {
      IncludesInfixOf(path, GlobalsName, MarkdownMarker, 7, 1);
    }
  }

  /** A README is kept: never merged and never deleted; and nothing else is kept. */
  lemma ReadmeKept(path: string)
    ensures Classify(path).Keep? <==> IsReadme(path)
  {
    if IsReadme(path) {
      ReadmeIsMarkdown(path);
    }
  }

  /** SUMMARY.md and globals.md are deleted without being merged, unless the path is also a README. */
  lemma IndexPageDeletedOnly(path: string)
    ensures Classify(path).DeleteOnly? <==> IsIndexPage(path) && !IsReadme(path)
  {
    if IsIndexPage(path) {
      IndexPageIsMarkdown(path);
    }
  }

  /** The text appended to the reference for one merged file. */
  function Section(content: string): string {
    content + Separator
  }

  /** Every path of `files` has a content. */
  predicate Readable(files: seq<string>, contents: map<string, string>) {
    forall k :: 0 <= k < |files| ==> files[k] in contents
  }

  /** The sections of `files`, in order. */
  function Concat(files: seq<string>, contents: map<string, string>): string
    requires Readable(files, contents)
    decreases |files|
  {
    if |files| == 0 then ""
    else Section(contents[files[0]]) + Concat(files[1..], contents)
  }

  /** Concatenating sections distributes over concatenation of the file lists. */
  lemma {:induction false} ConcatAppend(a: seq<string>, b: seq<string>, contents: map<string, string>)
    requires Readable(a, contents) && Readable(b, contents)
    ensures Readable(a + b, contents)
    ensures Concat(a + b, contents) == Concat(a, contents) + Concat(b, contents)
    decreases |a|
  {
    if |a| > 0 {
      assert (a + b)[1..] == a[1..] + b;
      ConcatAppend(a[1..], b, contents);
    } else {
      assert a + b == b;
    }
  }

  /** The files the loop reads, in the order it reads them. */
  function Merged(paths: seq<string>): seq<string> {
    Filter(IsMergeEligible, paths)
  }

  /** Every merge-eligible path before index `n` can be read. */
  predicate ReadableBefore(paths: seq<string>, contents: map<string, string>, n: nat) {
    forall j :: 0 <= j < n && j < |paths| && IsMergeEligible(paths[j]) ==> paths[j] in contents
  }

  /** Every file the loop reads can be read. */
  predicate AllReadable(paths: seq<string>, contents: map<string, string>) {
    ReadableBefore(paths, contents, |paths|)
  }

  /** Index `k` holds the first path the loop fails to read. */
  predicate FirstUnreadable(paths: seq<string>, contents: map<string, string>, k: nat) {
    && k < |paths|
    && IsMergeEligible(paths[k]) && paths[k] !in contents
    && ReadableBefore(paths, contents, k)
  }

  /** At most one index holds the first unreadable path. */
  lemma FirstUnreadableUnique(paths: seq<string>, contents: map<string, string>, i: nat, j: nat)
    requires FirstUnreadable(paths, contents, i) && FirstUnreadable(paths, contents, j)
    ensures i == j
  {
  }

  /** Readability of all paths splits into the first path and the rest. */
  lemma AllReadableTail(paths: seq<string>, contents: map<string, string>)
    requires |paths| > 0
    ensures AllReadable(paths, contents)
            <==> (IsMergeEligible(paths[0]) ==> paths[0] in contents) && AllReadable(paths[1..], contents)
  {
    assert forall j :: 0 <= j < |paths| - 1 ==> paths[1..][j] == paths[j + 1];
    if (IsMergeEligible(paths[0]) ==> paths[0] in contents) && AllReadable(paths[1..], contents) {
      forall j | 0 < j < |paths| && IsMergeEligible(paths[j])
        ensures paths[j] in contents
      {
        assert paths[j] == paths[1..][j - 1];
      }
    }
  }

  /** The first unreadable path of the rest, behind a readable first path, is the first of the whole. */
  lemma FirstUnreadableShift(paths: seq<string>, contents: map<string, string>, k: nat)
    requires |paths| > 0 && (IsMergeEligible(paths[0]) ==> paths[0] in contents)
    requires FirstUnreadable(paths[1..], contents, k)
    ensures FirstUnreadable(paths, contents, k + 1)
  {
    forall j | 0 < j < k + 1 && IsMergeEligible(paths[j])
      ensures paths[j] in contents
    {
      assert paths[j] == paths[1..][j - 1];
    }
  }

  /** The sections of a file list with a known first file. */
  lemma ConcatCons(x: string, t: seq<string>, contents: map<string, string>)
    requires x in contents && Readable(t, contents)
    ensures Readable([x] + t, contents)
    ensures Concat([x] + t, contents) == Section(contents[x]) + Concat(t, contents)
  {
    assert ([x] + t)[1..] == t;
  }

  /** The files merged are exactly the readable eligible ones. */
  lemma MergedReadable(paths: seq<string>, contents: map<string, string>)
    requires AllReadable(paths, contents)
    ensures Readable(Merged(paths), contents)
  {
    forall k | 0 <= k < |Merged(paths)|
      ensures Merged(paths)[k] in contents
    {
      var p := Merged(paths)[k];
      var j :| 0 <= j < |paths| && paths[j] == p;
    }
  }

  /** What the loop leaves behind: the reference text and one action per path. */
  datatype Plan = Plan(reference: string, actions: seq<Action>)

  /** Why the loop stops early: `readFileSync` throws on a file that cannot be read,
      `rmdirSync` throws ENOTEMPTY on a directory that still has an entry. */
  datatype MergeError = Unreadable(path: string) | NotEmpty(path: string)

  /** The loop's reads and decisions as a fold over the sorted paths, with every unlink
      and directory removal succeeding. It stops at the first merge-eligible path without
      content, as `readFileSync` throws there. */
  function BuildPlan(paths: seq<string>, contents: map<string, string>): (r: Result<Plan, MergeError>)
    ensures r.Success? <==> AllReadable(paths, contents)
    ensures r.Success? ==> |r.value.actions| == |paths|
    decreases |paths|
  {
    if |paths| == 0 then
      Success(Plan("", []))
    else
      var path := paths[0];
      var action := Classify(path);
      AllReadableTail(paths, contents);
      if Merges(action) && path !in contents then
        Failure(Unreadable(path))
      else
        match BuildPlan(paths[1..], contents)
        case Failure(e) => Failure(e)
        case Success(rest) =>
          var section := if Merges(action) then Section(contents[path]) else "";
          Success(Plan(section + rest.reference, [action] + rest.actions))
  }

  /** Every path gets the action its classification gives, in order. */
  lemma {:induction false} PlanActions(paths: seq<string>, contents: map<string, string>)
    requires AllReadable(paths, contents)
    ensures forall k :: 0 <= k < |paths| ==> BuildPlan(paths, contents).value.actions[k] == Classify(paths[k])
    decreases |paths|
  {
    if |paths| > 0 {
      AllReadableTail(paths, contents);
      PlanActions(paths[1..], contents);
      var actions := BuildPlan(paths, contents).value.actions;
      var rest := BuildPlan(paths[1..], contents).value.actions;
      assert actions == [Classify(paths[0])] + rest;
      forall k | 0 < k < |paths|
        ensures actions[k] == Classify(paths[k])
      {
        assert actions[k] == rest[k - 1] == Classify(paths[1..][k - 1]);
      }
    }
  }

  /** The reference text is the sections of exactly the merge-eligible paths, in order. */
  lemma {:induction false} PlanReference(paths: seq<string>, contents: map<string, string>)
    requires AllReadable(paths, contents)
    ensures Readable(Merged(paths), contents)
    ensures BuildPlan(paths, contents).value.reference == Concat(Merged(paths), contents)
    decreases |paths|
  {
    MergedReadable(paths, contents);
    if |paths| > 0 {
      var path := paths[0];
      AllReadableTail(paths, contents);
      PlanReference(paths[1..], contents);
      var reference := BuildPlan(paths, contents).value.reference;
      var rest := BuildPlan(paths[1..], contents).value.reference;
      assert paths == [path] + paths[1..];
      FilterCons(IsMergeEligible, path, paths[1..]);
      if IsMergeEligible(path) {
        assert Merged(paths) == [path] + Merged(paths[1..]);
        ConcatCons(path, Merged(paths[1..]), contents);
        assert reference == Section(contents[path]) + rest;
      } else {
        assert Merged(paths) == Merged(paths[1..]);
        assert reference == "" + rest;
      }
    }
  }

  /** A failing fold names the first path that cannot be read. */
  lemma {:induction false} PlanFailure(paths: seq<string>, contents: map<string, string>)
    requires !AllReadable(paths, contents)
    ensures exists k: nat :: FirstUnreadable(paths, contents, k)
                             && BuildPlan(paths, contents).error == Unreadable(paths[k])
    decreases |paths|
  {
    var path := paths[0];
    AllReadableTail(paths, contents);
    if IsMergeEligible(path) && path !in contents {
      assert FirstUnreadable(paths, contents, 0);
    } else {
      PlanFailure(paths[1..], contents);
      var k: nat :| FirstUnreadable(paths[1..], contents, k)
                    && BuildPlan(paths[1..], contents).error == Unreadable(paths[1..][k]);
      FirstUnreadableShift(paths, contents, k);
    }
  }

  /** One more path extends the merged files by that path, when it is eligible. */
  lemma MergedStep(paths: seq<string>, i: nat, contents: map<string, string>)
    requires i < |paths|
    requires Readable(Merged(paths[..i]), contents)
    requires IsMergeEligible(paths[i]) ==> paths[i] in contents
    ensures Readable(Merged(paths[..i + 1]), contents)
    ensures Concat(Merged(paths[..i + 1]), contents)
            == Concat(Merged(paths[..i]), contents)
               + (if IsMergeEligible(paths[i]) then Section(contents[paths[i]]) else "")
  {
    var p := paths[i];
    assert paths[..i + 1] == paths[..i] + [p];
    FilterConcat(IsMergeEligible, paths[..i], [p]);
    assert Filter(IsMergeEligible, [p]) == if IsMergeEligible(p) then [p] else [];
    if IsMergeEligible(p) {
      ConcatAppend(Merged(paths[..i]), [p], contents);
      assert Concat([p], contents) == Section(contents[p]);
    } else {
      assert Merged(paths[..i + 1]) == Merged(paths[..i]) + [];
      assert Merged(paths[..i]) + [] == Merged(paths[..i]);
    }
  }

  /** The first file of `files` without content, or "" when every file has one. */
  function FirstMissing(files: seq<string>, contents: map<string, string>): string
    decreases |files|
  {
    if |files| == 0 then ""
    else if files[0] !in contents then files[0]
    else FirstMissing(files[1..], contents)
  }

  /** Behind a first path that is readable or not merged, the first unreadable path of
      the whole is the first of the rest. */
  lemma FirstUnreadableUnshift(paths: seq<string>, contents: map<string, string>, k: nat)
    requires 0 < k && FirstUnreadable(paths, contents, k)
    ensures IsMergeEligible(paths[0]) ==> paths[0] in contents
    ensures FirstUnreadable(paths[1..], contents, k - 1)
  {
    forall j | 0 <= j < k - 1 && IsMergeEligible(paths[1..][j])
      ensures paths[1..][j] in contents
    {
      assert paths[1..][j] == paths[j + 1];
    }
  }

  /** The first unreadable path is the first merged file without content: it depends
      only on the merged files and their order. */
  lemma {:induction false} UnreadableIsFirstMissing(paths: seq<string>, contents: map<string, string>, k: nat)
    requires FirstUnreadable(paths, contents, k)
    ensures paths[k] == FirstMissing(Merged(paths), contents)
    decreases |paths|
  {
    var p := paths[0];
    assert paths == [p] + paths[1..];
    FilterCons(IsMergeEligible, p, paths[1..]);
    if k == 0 {
      assert Merged(paths) == [p] + Merged(paths[1..]);
    } else {
      FirstUnreadableUnshift(paths, contents, k);
      UnreadableIsFirstMissing(paths[1..], contents, k - 1);
      assert paths[k] == paths[1..][k - 1];
      if IsMergeEligible(p) {
        assert Merged(paths) == [p] + Merged(paths[1..]);
        assert ([p] + Merged(paths[1..]))[1..] == Merged(paths[1..]);
      } else {
        assert Merged(paths) == Merged(paths[1..]);
      }
    }
  }

  /** When everything is readable, the fold's plan is the reference text of the merged
      files together with the classification of every path. */
  lemma PlanSucceeds(paths: seq<string>, contents: map<string, string>, reference: string, actions: seq<Action>)
    requires AllReadable(paths, contents) && Readable(Merged(paths), contents)
    requires reference == Concat(Merged(paths), contents)
    requires |actions| == |paths| && forall k :: 0 <= k < |paths| ==> actions[k] == Classify(paths[k])
    ensures BuildPlan(paths, contents) == Success(Plan(reference, actions))
  {
    PlanActions(paths, contents);
    PlanReference(paths, contents);
    assert BuildPlan(paths, contents).value.actions == actions;
  }

  /** `path` lies inside the directory `dir`: it starts with `dir` followed by "/". */
  predicate Inside(path: string, dir: string) {
    |dir| < |path| && path[..|dir| + 1] == dir + "/"
  }

  /** The path at index `j` is still on disk when the loop reaches index `i`: every later
      path is, and of the earlier ones only those kept (unlinked files and removed
      directories are gone). */
  predicate OnDiskAt(paths: seq<string>, i: nat, j: nat)
    requires i < |paths| && j < |paths|
  {
    i < j || (j < i && Classify(paths[j]).Keep?)
  }

  /** `rmdirSync` of the path at index `i` throws ENOTEMPTY: it is removed as a directory
      while some path on disk lies inside it. */
  predicate Blocked(paths: seq<string>, i: nat)
    requires i < |paths|
  {
    Classify(paths[i]).RemoveDir?
    && exists j :: 0 <= j < |paths| && OnDiskAt(paths, i, j) && Inside(paths[j], paths[i])
  }

  /** No directory removal before index `n` throws. */
  predicate RemovalsSucceedBefore(paths: seq<string>, n: nat) {
    forall i :: 0 <= i < n && i < |paths| ==> !Blocked(paths, i)
  }

  /** No directory removal of the loop throws. */
  predicate RemovalsSucceed(paths: seq<string>) {
    RemovalsSucceedBefore(paths, |paths|)
  }

  /** The loop body throws at index `i`: reading an eligible file that cannot be read, or
      removing a directory that is not empty. */
  predicate ThrowsAt(paths: seq<string>, contents: map<string, string>, i: nat)
    requires i < |paths|
  {
    (IsMergeEligible(paths[i]) && paths[i] !in contents) || Blocked(paths, i)
  }

  /** Index `k` is where the loop throws first. */
  predicate FirstThrow(paths: seq<string>, contents: map<string, string>, k: nat) {
    && k < |paths|
    && ThrowsAt(paths, contents, k)
    && ReadableBefore(paths, contents, k)
    && RemovalsSucceedBefore(paths, k)
  }

  /** The first index from `from` on where the loop throws, or `|paths|` when it never does. */
  function FirstThrowFrom(paths: seq<string>, contents: map<string, string>, from: nat): (k: nat)
    requires from <= |paths|
    ensures from <= k <= |paths|
    ensures k < |paths| ==> ThrowsAt(paths, contents, k)
    ensures forall i :: from <= i < k ==> !ThrowsAt(paths, contents, i)
    decreases |paths| - from
  {
    if from == |paths| || ThrowsAt(paths, contents, from) then from
    else FirstThrowFrom(paths, contents, from + 1)
  }

  /** The first throw found by the scan is the first throw of the loop. */
  lemma FirstThrowFound(paths: seq<string>, contents: map<string, string>, k: nat)
    requires FirstThrow(paths, contents, k)
    ensures FirstThrowFrom(paths, contents, 0) == k
  {
  }

  /** Before an index where nothing has thrown, every read and every removal succeeded. */
  lemma NoThrowBefore(paths: seq<string>, contents: map<string, string>, k: nat)
    requires k <= |paths|
    requires forall i :: 0 <= i < k ==> !ThrowsAt(paths, contents, i)
    ensures ReadableBefore(paths, contents, k) && RemovalsSucceedBefore(paths, k)
  {
    forall j | 0 <= j < k && j < |paths| && IsMergeEligible(paths[j])
      ensures paths[j] in contents
    {
      assert !ThrowsAt(paths, contents, j);
    }
    forall j | 0 <= j < k && j < |paths|
      ensures !Blocked(paths, j)
    {
      assert !ThrowsAt(paths, contents, j);
    }
  }

  /** The loop with its file-system effects: the fold's plan, unless a file read or a
      directory removal throws first. */
  function RunLoop(paths: seq<string>, contents: map<string, string>): (r: Result<Plan, MergeError>)
    ensures r.Success? <==> AllReadable(paths, contents) && RemovalsSucceed(paths)
    ensures r.Success? ==> r == BuildPlan(paths, contents)
    ensures r.Failure? ==>
              exists k: nat :: && FirstThrow(paths, contents, k)
                               && r.error.path == paths[k]
                               && (r.error.NotEmpty? <==> Blocked(paths, k))
                               && (r.error.Unreadable? <==> FirstUnreadable(paths, contents, k))
  {
    var k := FirstThrowFrom(paths, contents, 0);
    NoThrowBefore(paths, contents, k);
    if k < |paths| then
      assert FirstThrow(paths, contents, k);
      if Blocked(paths, k) then Failure(NotEmpty(paths[k])) else Failure(Unreadable(paths[k]))
    else
      BuildPlan(paths, contents)
  }

  /** The five appends of lines 90-94 after the file's content (line 89): one section. */
  method AppendSection(reference: string, content: string) returns (r: string)
    ensures r == reference + Section(content)
  {
    r := reference + content;
    r := r + "\n";
    r := r + "\n";
    r := r + "<hr />";
    r := r + "\n";
    r := r + "\n";
  }

  /** What the loop knows after the first `i` paths: all merged files so far were
      read, `reference` holds their sections and `actions` their classifications. */
  predicate LoopState(paths: seq<string>, contents: map<string, string>, i: nat,
                      reference: string, actions: seq<Action>)
    requires i <= |paths|
  {
    && ReadableBefore(paths, contents, i)
    && Readable(Merged(paths[..i]), contents)
    && reference == Concat(Merged(paths[..i]), contents)
    && |actions| == i
    && forall k :: 0 <= k < i ==> actions[k] == Classify(paths[k])
  }

  /** One iteration of the loop keeps its state, once the current file is known readable. */
  lemma LoopStep(paths: seq<string>, contents: map<string, string>, i: nat,
                 reference: string, actions: seq<Action>)
    requires i < |paths|
    requires LoopState(paths, contents, i, reference, actions)
    requires IsMergeEligible(paths[i]) ==> paths[i] in contents
    ensures IsMergeEligible(paths[i]) ==>
              LoopState(paths, contents, i + 1, reference + Section(contents[paths[i]]),
                        actions + [Classify(paths[i])])
    ensures !IsMergeEligible(paths[i]) ==>
              LoopState(paths, contents, i + 1, reference, actions + [Classify(paths[i])])
  {
    var extended := actions + [Classify(paths[i])];
    forall k | 0 <= k < i + 1
      ensures extended[k] == Classify(paths[k])
    {
      if k < i {
        assert extended[k] == actions[k];
      }
    }
    forall j | 0 <= j < i + 1 && IsMergeEligible(paths[j])
      ensures paths[j] in contents
    {
      if j < i {
        assert ReadableBefore(paths, contents, i);
      }
    }
    MergedStep(paths, i, contents);
    if !IsMergeEligible(paths[i]) {
      assert reference + "" == reference;
    }
  }

  /** The loop stops at an unreadable merged file with the error of the whole run. */
  lemma LoopFails(paths: seq<string>, contents: map<string, string>, i: nat,
                  reference: string, actions: seq<Action>)
    requires i < |paths|
    requires LoopState(paths, contents, i, reference, actions) && RemovalsSucceedBefore(paths, i)
    requires IsMergeEligible(paths[i]) && paths[i] !in contents
    ensures RunLoop(paths, contents) == Failure(Unreadable(paths[i]))
  {
    FirstThrowFound(paths, contents, i);
  }

  /** The loop stops at a directory that is not empty with the error of the whole run. */
  lemma LoopBlocked(paths: seq<string>, contents: map<string, string>, i: nat,
                    reference: string, actions: seq<Action>)
    requires i < |paths|
    requires LoopState(paths, contents, i, reference, actions) && RemovalsSucceedBefore(paths, i)
    requires Blocked(paths, i)
    ensures RunLoop(paths, contents) == Failure(NotEmpty(paths[i]))
  {
    FirstThrowFound(paths, contents, i);
  }

  /** The loop's state after the last path is the plan of the whole run. */
  lemma LoopExit(paths: seq<string>, contents: map<string, string>,
                 reference: string, actions: seq<Action>)
    requires LoopState(paths, contents, |paths|, reference, actions) && RemovalsSucceed(paths)
    ensures RunLoop(paths, contents) == Success(Plan(reference, actions))
  {
    assert paths[..|paths|] == paths;
    PlanSucceeds(paths, contents, reference, actions);
  }

  /** The loop as written: the file read and the appends for every merged path, the
      error thrown by the first unreadable file or non-empty directory. */
  method MergeLoop(paths: seq<string>, contents: map<string, string>) returns (r: Result<Plan, MergeError>)
    ensures r == RunLoop(paths, contents)
  {
    var reference := "";
    var actions: seq<Action> := [];
    for i := 0 to |paths|
      invariant LoopState(paths, contents, i, reference, actions)
      invariant RemovalsSucceedBefore(paths, i)
    {
      var path := paths[i];
      var action := Classify(path);
      var next := reference;
      if Merges(action) {
        if path !in contents {
          LoopFails(paths, contents, i, reference, actions);
          return Failure(Unreadable(path));
        }
        next := AppendSection(reference, contents[path]);
      } else if action.RemoveDir? && Blocked(paths, i) {
        // `rmdirSync` throws on a directory with an entry left in it
        LoopBlocked(paths, contents, i, reference, actions);
        return Failure(NotEmpty(path));
      }
      LoopStep(paths, contents, i, reference, actions);
      reference, actions := next, actions + [action];
    }
    LoopExit(paths, contents, reference, actions);
    return Success(Plan(reference, actions));
  }
}
