/**
 The script from the generated files to the written reference text: sort the globbed
 paths, run the merge loop, apply the text passes in their source order, demote the
 object-literal headings. The regular-expression passes are parameters: lines 107-116
 run before the literal passes, lines 124-127 after them.
 */
module Pipeline {
  import opened Text
  import opened Sequences
  import opened Results
  import opened PathOrder
  import opened Merge
  import Demotion

  /** The literal global replaces of lines 118, 120 and 123, in that order: drop
      "*Inherited from void*", turn "> #" into "#", drop "###  constructor". */
  function LiteralPasses(docs: string): (r: string)
    ensures |r| <= |docs|
  {
    ReplaceAllShrinks(docs, "*Inherited from void*", "");
    var noInherited := ReplaceAll(docs, "*Inherited from void*", "");
    ReplaceAllShrinks(noInherited, "> #", "#");
    var noQuote := ReplaceAll(noInherited, "> #", "#");
    ReplaceAllShrinks(noQuote, "###  constructor", "");
    ReplaceAll(noQuote, "###  constructor", "")
  }

  /** A text none of whose literal patterns occur passes through the literal passes unchanged. */
  lemma LiteralPassesIdentity(docs: string)
    requires !Includes(docs, "*Inherited from void*")
    requires !Includes(docs, "> #")
    requires !Includes(docs, "###  constructor")
    ensures LiteralPasses(docs) == docs
  {
    ReplaceAllAbsent(docs, "*Inherited from void*", "");
    ReplaceAllAbsent(docs, "> #", "#");
    ReplaceAllAbsent(docs, "###  constructor", "");
  }

  /** The text written to the reference file, and what happened to each globbed path. */
  datatype Output = Output(reference: string, actions: seq<Action>)

  /** Why the script exits with status 1 after the generator ran. */
  datatype PipelineError =
    | UnreadableFile(path: string)      // `readFileSync` of a merge-eligible path threw
    | DirectoryNotEmpty(path: string)   // `rmdirSync` of a path with an entry left in it threw
    | NoReferenceFile                   // nothing was merged, so the reference file was never created

  /** Some action appends to the reference file, which creates it. */
  predicate HasMerge(actions: seq<Action>) {
    exists k :: 0 <= k < |actions| && Merges(actions[k])
  }

  /** The paths the actions apply to, in order. */
  function ActionPaths(actions: seq<Action>): (r: seq<string>)
    ensures |r| == |actions|
    ensures forall k :: 0 <= k < |r| ==> r[k] == actions[k].path
  {
    seq(|actions|, k requires 0 <= k < |actions| => actions[k].path)
  }

  /** ".md" from index 1 on is ".md" from index 0 on: the loop's file test implies the comparator's. */
  lemma MarkdownIsFileLike(path: string)
    requires IsMarkdown(path)
    ensures IsFileLike(path)
  {
    IncludesFromEarlier(path, ".md", 1, 0);
  }

  /** The files are merged in glob order: sorting only moves paths that are never merged. */
  lemma MergeOrderIsGlobOrder(globbed: seq<string>)
    ensures Merged(SortPaths(globbed)) == Merged(globbed)
  {
    var files := Filter(IsFileLike, globbed);
    var dirs := Filter(IsDirLike, globbed);
    FilterConcat(IsMergeEligible, files, dirs);
    forall k | 0 <= k < |dirs|
      ensures !IsMergeEligible(dirs[k])
    {
      if IsMarkdown(dirs[k]) {
        MarkdownIsFileLike(dirs[k]);
      }
    }
    FilterKeepsNone(IsMergeEligible, dirs);
    forall k | 0 <= k < |globbed| && IsMergeEligible(globbed[k])
      ensures IsFileLike(globbed[k])
    {
      MarkdownIsFileLike(globbed[k]);
    }
    FilterOfFilter(IsMergeEligible, IsFileLike, globbed);
    assert Merged(files) + [] == Merged(files);
  }

  /** Readability does not depend on the order of the paths. */
  lemma AllReadablePermutation(a: seq<string>, b: seq<string>, contents: map<string, string>)
    requires multiset(a) == multiset(b)
    requires AllReadable(b, contents)
    ensures AllReadable(a, contents)
  {
    forall j | 0 <= j < |a| && IsMergeEligible(a[j])
      ensures a[j] in contents
    {
      assert a[j] in multiset(b);
      var i :| 0 <= i < |b| && b[i] == a[j];
    }
  }

  /** Sorting does not change whether every merged file can be read. */
  lemma ReadableAfterSort(globbed: seq<string>, contents: map<string, string>)
    ensures AllReadable(SortPaths(globbed), contents) <==> AllReadable(globbed, contents)
  {
    var sorted := SortPaths(globbed);
    SortPermutes(globbed);
    if AllReadable(sorted, contents) {
      AllReadablePermutation(globbed, sorted, contents);
    }
    if AllReadable(globbed, contents) {
      AllReadablePermutation(sorted, globbed, contents);
    }
  }

  /** Some path is merged exactly when the merge list is not empty. */
  lemma HasMergeIffMerged(paths: seq<string>, actions: seq<Action>)
    requires |actions| == |paths| && forall k :: 0 <= k < |paths| ==> actions[k] == Classify(paths[k])
    ensures HasMerge(actions) <==> |Merged(paths)| > 0
  {
    if HasMerge(actions) {
      var k :| 0 <= k < |actions| && Merges(actions[k]);
      FilterSelects(IsMergeEligible, paths, k);
    }
    if |Merged(paths)| > 0 {
      var first := Merged(paths)[0];
      var k :| 0 <= k < |paths| && paths[k] == first;
      assert Merges(actions[k]);
    }
  }

  /** The merge loop run on the sorted paths fails exactly when some merged file is unreadable. */
  lemma SortedPlanSucceeds(globbed: seq<string>, contents: map<string, string>)
    ensures BuildPlan(SortPaths(globbed), contents).Success? <==> AllReadable(globbed, contents)
  {
    ReadableAfterSort(globbed, contents);
  }

  /** The actions of the merge loop run on the sorted paths. */
  lemma SortedPlanActions(globbed: seq<string>, contents: map<string, string>)
    requires AllReadable(globbed, contents)
    ensures BuildPlan(SortPaths(globbed), contents).Success?
    ensures var actions := BuildPlan(SortPaths(globbed), contents).value.actions;
              && |actions| == |globbed|
              && multiset(ActionPaths(actions)) == multiset(globbed)
              && (forall k :: 0 <= k < |globbed| ==> actions[k] == Classify(SortPaths(globbed)[k]))
              && (HasMerge(actions) <==> |Merged(globbed)| > 0)
  {
    var sorted := SortPaths(globbed);
    SortedPlanSucceeds(globbed, contents);
    SortPermutes(globbed);
    MergeOrderIsGlobOrder(globbed);
    var actions := BuildPlan(sorted, contents).value.actions;
    PlanActions(sorted, contents);
    assert ActionPaths(actions) == sorted;
    HasMergeIffMerged(sorted, actions);
  }

  /** The reference text of the merge loop run on the sorted paths. */
  lemma SortedPlanReference(globbed: seq<string>, contents: map<string, string>)
    requires AllReadable(globbed, contents)
    ensures BuildPlan(SortPaths(globbed), contents).Success?
    ensures Readable(Merged(globbed), contents)
    ensures BuildPlan(SortPaths(globbed), contents).value.reference == Concat(Merged(globbed), contents)
  {
    SortedPlanSucceeds(globbed, contents);
    MergeOrderIsGlobOrder(globbed);
    PlanReference(SortPaths(globbed), contents);
  }

  /** The merge loop run on the sorted paths, described in terms of the glob order. */
  lemma PlanOfSorted(globbed: seq<string>, contents: map<string, string>)
    ensures RunLoop(SortPaths(globbed), contents).Success?
            <==> AllReadable(globbed, contents) && RemovalsSucceed(SortPaths(globbed))
    ensures RunLoop(SortPaths(globbed), contents).Success? ==>
              var plan := RunLoop(SortPaths(globbed), contents).value;
              && |plan.actions| == |globbed|
              && multiset(ActionPaths(plan.actions)) == multiset(globbed)
              && (forall k :: 0 <= k < |globbed| ==> plan.actions[k] == Classify(SortPaths(globbed)[k]))
              && (HasMerge(plan.actions) <==> |Merged(globbed)| > 0)
              && Readable(Merged(globbed), contents)
              && plan.reference == Concat(Merged(globbed), contents)
  {
    ReadableAfterSort(globbed, contents);
    if RunLoop(SortPaths(globbed), contents).Success? {
      SortedPlanActions(globbed, contents);
      SortedPlanReference(globbed, contents);
    }
  }

  /** A read failure of the loop on the sorted paths names the first unreadable merged
      file in glob order: the sort moves no merged file. */
  lemma SortedRunUnreadable(globbed: seq<string>, contents: map<string, string>)
    ensures var r := RunLoop(SortPaths(globbed), contents);
            r.Failure? && r.error.Unreadable? ==>
              exists k: nat :: FirstUnreadable(globbed, contents, k) && r.error.path == globbed[k]
  {
    var sorted := SortPaths(globbed);
    var r := RunLoop(sorted, contents);
    if r.Failure? && r.error.Unreadable? {
      var i: nat :| && FirstThrow(sorted, contents, i)
                    && r.error.path == sorted[i]
                    && (r.error.Unreadable? <==> FirstUnreadable(sorted, contents, i));
      UnreadableIsFirstMissing(sorted, contents, i);
      ReadableAfterSort(globbed, contents);
      PlanFailure(globbed, contents);
      var k: nat :| FirstUnreadable(globbed, contents, k)
                    && BuildPlan(globbed, contents).error == Unreadable(globbed[k]);
      UnreadableIsFirstMissing(globbed, contents, k);
      MergeOrderIsGlobOrder(globbed);
    }
  }

  /** The whole script after the generator: `rewriteLinks` stands for the regular-expression
      passes of lines 107-116 and `collapseSections` for those of lines 124-127. */
  function Generate(globbed: seq<string>, contents: map<string, string>,
                    rewriteLinks: string -> string, collapseSections: string -> string): (r: Result<Output, PipelineError>)
    ensures r.Success? <==>
              AllReadable(globbed, contents) && RemovalsSucceed(SortPaths(globbed)) && |Merged(globbed)| > 0
    ensures r.Success? ==> |r.value.actions| == |globbed|
    ensures r.Success? ==> multiset(ActionPaths(r.value.actions)) == multiset(globbed)
    ensures r.Success? ==> forall k :: 0 <= k < |globbed| ==> r.value.actions[k] == Classify(SortPaths(globbed)[k])
    ensures r.Success? ==>
              && Readable(Merged(globbed), contents)
              && r.value.reference == Demotion.DemoteObjectLiterals(
                   collapseSections(LiteralPasses(rewriteLinks(Concat(Merged(globbed), contents)))))
    ensures r.Failure? ==>
              (r.error == NoReferenceFile <==> AllReadable(globbed, contents) && RemovalsSucceed(SortPaths(globbed)))
    ensures r.Failure? && r.error.UnreadableFile? ==>
              exists k: nat :: FirstUnreadable(globbed, contents, k) && r.error.path == globbed[k]
    ensures r.Failure? && r.error.UnreadableFile? ==>
              exists i: nat :: && FirstThrow(SortPaths(globbed), contents, i)
                               && !Blocked(SortPaths(globbed), i)
                               && r.error.path == SortPaths(globbed)[i]
    ensures r.Failure? && r.error.DirectoryNotEmpty? ==>
              exists i: nat :: && FirstThrow(SortPaths(globbed), contents, i)
                               && Blocked(SortPaths(globbed), i)
                               && r.error.path == SortPaths(globbed)[i]
  {
    PlanOfSorted(globbed, contents);
    SortedRunUnreadable(globbed, contents);
    match RunLoop(SortPaths(globbed), contents)
    case Failure(Unreadable(path)) => Failure(UnreadableFile(path))
    case Failure(NotEmpty(path)) => Failure(DirectoryNotEmpty(path))
    case Success(plan) =>
      if HasMerge(plan.actions) then
        Success(Output(
          Demotion.DemoteObjectLiterals(collapseSections(LiteralPasses(rewriteLinks(plan.reference)))),
          plan.actions))
      else
        Failure(NoReferenceFile)
  }

  /** The comparator and the loop use the same ".md" test on every path. */
  predicate SearchesAgree(paths: seq<string>) {
    forall p :: p in paths ==> (IsFileLike(p) <==> IsMarkdown(p))
  }

  /** Every sorted path is a globbed path. */
  lemma SortedMember(globbed: seq<string>, i: nat)
    requires i < |globbed|
    ensures SortPaths(globbed)[i] in globbed
  {
    SortPermutes(globbed);
    assert SortPaths(globbed)[i] in multiset(SortPaths(globbed));
  }

  /** When the two ".md" tests agree, every directory removal comes after every file
      action: the loop only removes a directory once all file paths are handled. */
  lemma RemovalsComeLast(globbed: seq<string>, i: nat, j: nat)
    requires SearchesAgree(globbed)
    requires i < j < |globbed|
    requires Classify(SortPaths(globbed)[i]).RemoveDir?
    ensures Classify(SortPaths(globbed)[j]).RemoveDir?
  {
    var sorted := SortPaths(globbed);
    SortOrders(globbed);
    assert Compare(sorted[i], sorted[j]) <= 0;
    SortedMember(globbed, i);
    SortedMember(globbed, j);
  }

  /** The directory ".md/guide" is file-like for the comparator but a directory for the loop. */
  lemma GuideDirectory(dir: string)
    requires dir == ".md/guide"
    ensures IsFileLike(dir) && Classify(dir) == RemoveDir(dir)
  {
    assert OccursAt(dir, ".md", 0);
    assert dir[1..] == "md/guide";
    MissingCharExcludes(dir, ".md", 0, 1);
  }

  /** The file ".md/guide/a.md" contains ".md" from index 1 on. */
  lemma GuideFileIsMarkdown(file: string)
    requires file == ".md/guide/a.md"
    ensures IsFileLike(file) && IsMarkdown(file)
  {
    assert OccursAt(file, ".md", 0);
    assert OccursAt(file, ".md", 11);
  }

  /** The file ".md/guide/a.md" is none of the excluded names. */
  lemma GuideFileNotExcluded(file: string)
    requires file == ".md/guide/a.md"
    ensures !IsReadme(file) && !IsIndexPage(file)
  {
    assert file[1..] == "md/guide/a.md";
    MissingCharExcludes(file, ReadmeName, 0, 1);
    MissingCharExcludes(file, SummaryName, 0, 1);
    MissingCharExcludes(file, GlobalsName, 3, 1);
  }

  /** Without that agreement the order can break: a directory path that is file-like
      for the comparator (".md" only at index 0) stays in front of a file inside it that
      the glob lists after it. The loop then tries to remove the directory while the file
      is still on disk, `rmdirSync` throws, and the script exits before the file is read. */
  lemma DirectoryBeforeItsFile(dir: string, file: string, contents: map<string, string>,
                               rewriteLinks: string -> string, collapseSections: string -> string)
    requires IsFileLike(dir) && !IsMarkdown(dir)
    requires IsMergeEligible(file) && Inside(file, dir)
    ensures !SearchesAgree([dir, file])
    ensures SortPaths([dir, file]) == [dir, file]
    ensures Classify(dir).RemoveDir? && Blocked([dir, file], 0)
    ensures Generate([dir, file], contents, rewriteLinks, collapseSections) == Failure(DirectoryNotEmpty(dir))
  {
    var globbed := [dir, file];
    MarkdownIsFileLike(file);
    assert !(IsFileLike(globbed[0]) <==> IsMarkdown(globbed[0]));
    FilterKeepsAll(IsFileLike, globbed);
    FilterKeepsNone(IsDirLike, globbed);
    assert globbed + [] == globbed;
    assert OnDiskAt(globbed, 0, 1);
    assert FirstThrow(globbed, contents, 0);
    FirstThrowFound(globbed, contents, 0);
  }

  /** The sort moves the one file of a directory, its subdirectory and the file to the front. */
  lemma FileBeforeDirectories(parent: string, child: string, file: string)
    requires IsDirLike(parent) && IsDirLike(child) && IsFileLike(file)
    ensures SortPaths([parent, child, file]) == [file, parent, child]
  {
    assert [parent, child, file] == [parent] + ([child] + [file]);
    FilterCons(IsFileLike, parent, [child] + [file]);
    FilterCons(IsFileLike, child, [file]);
    FilterCons(IsDirLike, parent, [child] + [file]);
    FilterCons(IsDirLike, child, [file]);
    FilterKeepsAll(IsFileLike, [file]);
    FilterKeepsNone(IsDirLike, [file]);
  }

  /** After reading the file, the loop removes the parent while the child is on disk. */
  lemma ParentRemovedFirst(parent: string, child: string, file: string, contents: map<string, string>)
    requires !IsMarkdown(parent) && Inside(child, parent)
    requires IsMergeEligible(file) && file in contents
    ensures Blocked([file, parent, child], 1)
    ensures RunLoop([file, parent, child], contents) == Failure(NotEmpty(parent))
  {
    var sorted := [file, parent, child];
    assert OnDiskAt(sorted, 1, 2);
    assert Blocked(sorted, 1);
    assert !Blocked(sorted, 0);
    assert FirstThrow(sorted, contents, 1);
    FirstThrowFound(sorted, contents, 1);
  }

  /** Nested directories break the loop even when both ".md" tests agree: the glob lists
      a directory before the directories inside it, the sort keeps that order, and the
      parent is removed while its child is still on disk. */
  lemma ParentBeforeChild(parent: string, child: string, file: string, contents: map<string, string>,
                          rewriteLinks: string -> string, collapseSections: string -> string)
    requires IsDirLike(parent) && IsDirLike(child) && Inside(child, parent)
    requires IsMergeEligible(file) && file in contents
    ensures SortPaths([parent, child, file]) == [file, parent, child]
    ensures Blocked([file, parent, child], 1)
    ensures Generate([parent, child, file], contents, rewriteLinks, collapseSections)
            == Failure(DirectoryNotEmpty(parent))
  {
    MarkdownIsFileLike(file);
    FileBeforeDirectories(parent, child, file);
    if IsMarkdown(parent) {
      MarkdownIsFileLike(parent);
    }
    ParentRemovedFirst(parent, child, file, contents);
  }

  /** With the output directory ".md" such a pair exists: the directory ".md/guide" and
      the file ".md/guide/a.md" inside it. */
  lemma GuideExample(dir: string, file: string)
    requires dir == ".md/guide" && file == ".md/guide/a.md"
    ensures IsFileLike(dir) && !IsMarkdown(dir)
    ensures IsMergeEligible(file) && Inside(file, dir)
  {
    assert file[..|dir| + 1] == dir + "/";
    GuideDirectory(dir);
    GuideFileIsMarkdown(file);
    GuideFileNotExcluded(file);
  }

  /** The directories "d/a" and "d/a/b" contain no ".md". */
  lemma NestedDirectories(parent: string, child: string)
    requires parent == "d/a" && child == "d/a/b"
    ensures IsDirLike(parent) && IsDirLike(child) && Inside(child, parent)
  {
    assert parent[0..] == parent && child[0..] == child;
    MissingCharExcludes(parent, ".md", 0, 0);
    MissingCharExcludes(child, ".md", 0, 0);
    assert child[..|parent| + 1] == parent + "/";
  }

  /** The file "d/a/b/c.md" is merged: it contains ".md" from index 1 and none of the
      excluded names. */
  lemma NestedFile(file: string)
    requires file == "d/a/b/c.md"
    ensures IsMergeEligible(file)
  {
    assert OccursAt(file, ".md", 7);
    assert file[1..] == "/a/b/c.md";
    MissingCharExcludes(file, ReadmeName, 0, 1);
    MissingCharExcludes(file, SummaryName, 0, 1);
    MissingCharExcludes(file, GlobalsName, 0, 1);
  }

  /** The glob order "d/a", "d/a/b", "d/a/b/c.md" meets the premises of `ParentBeforeChild`:
      the run stops at the removal of "d/a". */
  lemma NestedExample(parent: string, child: string, file: string)
    requires parent == "d/a" && child == "d/a/b" && file == "d/a/b/c.md"
    ensures IsDirLike(parent) && IsDirLike(child) && Inside(child, parent)
    ensures IsMergeEligible(file)
  {
    NestedDirectories(parent, child);
    NestedFile(file);
  }
}
