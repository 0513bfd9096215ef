/**
 The order in which the merge visits the globbed paths (src/index.ts lines 70-83):
 a comparator that puts every path containing ".md" before every path that does
 not, used by JavaScript's stable `Array.prototype.sort`.
 */
module PathOrder {
  import opened Text
  import opened Sequences

  /** The substring that makes the comparator treat a path as a file. */
  const FileMarker: string := ".md"

  /** The comparator's test: ".md" anywhere in the path, searching from index 0. */
  predicate IsFileLike(path: string) {
    Includes(path, FileMarker)
  }

  /** Every path the comparator does not treat as a file. */
  predicate IsDirLike(path: string) {
    !IsFileLike(path)
  }

  /** The sort comparator. The source's final `return undefined` is never reached:
      exactly one of the three earlier returns is taken for every pair. */
  function Compare(first: string, second: string): (r: int)
    ensures r == -1 <==> IsFileLike(first) && !IsFileLike(second)
    ensures r == 1 <==> !IsFileLike(first) && IsFileLike(second)
    ensures r == 0 <==> IsFileLike(first) == IsFileLike(second)
  {
    var isFirstAFile := IsFileLike(first);
    var isSecondAFile := IsFileLike(second);
    if (isFirstAFile && isSecondAFile) || (!isFirstAFile && !isSecondAFile) then 0
    else if isFirstAFile then -1
    else if isSecondAFile then 1
    else assert false; 0
  }

  /** Swapping the arguments negates the comparison. */
  lemma CompareAntisymmetric(a: string, b: string)
    ensures Compare(a, b) == -Compare(b, a)
  {
  }

  /** "Not after" is transitive, so the comparator is a consistent total preorder. */
  lemma CompareTransitive(a: string, b: string, c: string)
    requires Compare(a, b) <= 0 && Compare(b, c) <= 0
    ensures Compare(a, c) <= 0
  {
  }

  /** No element of `r` comes after a later one under the comparator. */
  ghost predicate Sorted(r: seq<string>) {
    forall i, j :: 0 <= i < j < |r| ==> Compare(r[i], r[j]) <= 0
  }

  /** Inserts `x` into `sorted` in front of the first element that is not before it,
      which keeps `x` ahead of the elements it preceded in the input. */
  function Insert(x: string, sorted: seq<string>): (r: seq<string>)
    ensures |r| == |sorted| + 1
    decreases |sorted|
  {
    if |sorted| == 0 then [x]
    else if Compare(x, sorted[0]) <= 0 then [x] + sorted
    else [sorted[0]] + Insert(x, sorted[1..])
  }

  /** Inserting into "files then directories" lands a file at the front and a directory
      right after the last file. */
  lemma {:induction false} InsertIntoPartition(x: string, files: seq<string>, dirs: seq<string>)
    requires forall k :: 0 <= k < |files| ==> IsFileLike(files[k])
    requires forall k :: 0 <= k < |dirs| ==> IsDirLike(dirs[k])
    ensures Insert(x, files + dirs) == if IsFileLike(x) then [x] + files + dirs else files + [x] + dirs
    decreases |files|
  {
    if |files| > 0 && !IsFileLike(x) {
      assert (files + dirs)[1..] == files[1..] + dirs;
      InsertIntoPartition(x, files[1..], dirs);
      assert [files[0]] + (files[1..] + [x] + dirs) == files + [x] + dirs;
    } else if |files| == 0 {
      assert files + dirs == dirs;
    }
  }

  /** Inserting the first path into the partition of the others partitions all of them. */
  lemma InsertStep(paths: seq<string>)
    requires |paths| > 0
    ensures Insert(paths[0], Filter(IsFileLike, paths[1..]) + Filter(IsDirLike, paths[1..]))
            == Filter(IsFileLike, paths) + Filter(IsDirLike, paths)
  {
    var x, files, dirs := paths[0], Filter(IsFileLike, paths[1..]), Filter(IsDirLike, paths[1..]);
    InsertIntoPartition(x, files, dirs);
    if IsFileLike(x) {
      assert Filter(IsFileLike, paths) == [x] + files;
      assert Filter(IsDirLike, paths) == dirs;
    } else {
      assert Filter(IsFileLike, paths) == files;
      assert Filter(IsDirLike, paths) == [x] + dirs;
      ConcatAssociative(files, [x], dirs);
    }
  }

  /** The stable sort of the globbed paths: the files in glob order followed by
      everything else in glob order. */
  function SortPaths(paths: seq<string>): (r: seq<string>)
    ensures |r| == |paths|
    ensures r == Filter(IsFileLike, paths) + Filter(IsDirLike, paths)
    decreases |paths|
  {
    if |paths| == 0 then []
    else
      var rest := SortPaths(paths[1..]);
      InsertStep(paths);
      Insert(paths[0], rest)
  }

  /** Sorting rearranges the paths without adding or dropping any. */
  lemma SortPermutes(paths: seq<string>)
    ensures multiset(SortPaths(paths)) == multiset(paths)
  {
    forall x: string
      ensures multiset(SortPaths(paths))[x] == multiset(paths)[x]
    {
      FilterCount(IsFileLike, paths, x);
      FilterCount(IsDirLike, paths, x);
    }
  }

  /** Every file-like path ends up before every other path. */
  lemma SortOrders(paths: seq<string>)
    ensures Sorted(SortPaths(paths))
  {
  }

  /** Within each group the glob order survives the sort: the sort is stable. */
  lemma SortStable(paths: seq<string>)
    ensures Filter(IsFileLike, SortPaths(paths)) == Filter(IsFileLike, paths)
    ensures Filter(IsDirLike, SortPaths(paths)) == Filter(IsDirLike, paths)
  {
    var files := Filter(IsFileLike, paths);
    var dirs := Filter(IsDirLike, paths);
    FilterConcat(IsFileLike, files, dirs);
    FilterConcat(IsDirLike, files, dirs);
    FilterKeepsAll(IsFileLike, files);
    FilterKeepsNone(IsFileLike, dirs);
    FilterKeepsAll(IsDirLike, dirs);
    FilterKeepsNone(IsDirLike, files);
  }

  /** A sequence whose first `m` elements are files and whose rest are not is its
      files followed by its other paths. */
  lemma PartitionAt(r: seq<string>, m: nat)
    requires m <= |r|
    requires forall k :: 0 <= k < m ==> IsFileLike(r[k])
    requires forall k :: m <= k < |r| ==> IsDirLike(r[k])
    ensures r == Filter(IsFileLike, r) + Filter(IsDirLike, r)
  {
    var files, dirs := r[..m], r[m..];
    assert r == files + dirs;
    FilterFrontBlock(IsFileLike, files, dirs);
    FilterBackBlock(IsDirLike, files, dirs);
  }

  /** The index of the first path that is not a file, or `|r|` when there is none. */
  function FirstDir(r: seq<string>): (m: nat)
    ensures m <= |r|
    ensures forall k :: 0 <= k < m ==> IsFileLike(r[k])
    ensures m < |r| ==> IsDirLike(r[m])
    decreases |r|
  {
    if |r| == 0 || IsDirLike(r[0]) then 0
    else 1 + FirstDir(r[1..])
  }

  /** A sorted sequence already is its files followed by its other paths. */
  lemma SortedIsPartition(r: seq<string>)
    requires Sorted(r)
    ensures r == Filter(IsFileLike, r) + Filter(IsDirLike, r)
  {
    var m := FirstDir(r);
    forall k | m <= k < |r|
      ensures IsDirLike(r[k])
    {
      if k > m {
        assert Compare(r[m], r[k]) <= 0;
      }
    }
    PartitionAt(r, m);
  }

  /** Any stable sort by this comparator gives exactly `SortPaths`: a sorted
      rearrangement that keeps each group's glob order is unique. */
  lemma StableSortUnique(paths: seq<string>, r: seq<string>)
    requires Sorted(r)
    requires Filter(IsFileLike, r) == Filter(IsFileLike, paths)
    requires Filter(IsDirLike, r) == Filter(IsDirLike, paths)
    ensures r == SortPaths(paths)
  {
    SortedIsPartition(r);
  }
}
