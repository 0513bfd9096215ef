/** Order-preserving selection from a sequence of paths. */
module Sequences {

  /** The elements of `s` that satisfy `keep`, in their original order. */
  function Filter(keep: string -> bool, s: seq<string>): (r: seq<string>)
    ensures |r| <= |s|
    ensures forall k :: 0 <= k < |r| ==> keep(r[k]) && r[k] in s
    decreases |s|
  {
    if |s| == 0 then []
    else (if keep(s[0]) then [s[0]] else []) + Filter(keep, s[1..])
  }

  /** Concatenation is associative. */
  lemma ConcatAssociative(a: seq<string>, b: seq<string>, c: seq<string>)
    ensures a + b + c == a + (b + c)
  {
  }

  /** Selecting from a sequence with a known first element. */
  lemma FilterCons(keep: string -> bool, x: string, t: seq<string>)
    ensures Filter(keep, [x] + t) == (if keep(x) then [x] else []) + Filter(keep, t)
  {
    assert ([x] + t)[1..] == t;
  }

  /** Selection distributes over concatenation. */
  lemma {:induction false} FilterConcat(keep: string -> bool, a: seq<string>, b: seq<string>)
    ensures Filter(keep, a + b) == Filter(keep, a) + Filter(keep, b)
    decreases |a|
  {
    if |a| > 0 {
      assert (a + b)[1..] == a[1..] + b;
      FilterConcat(keep, a[1..], b);
    } else {
      assert a + b == b;
    }
  }

  /** Each element is kept exactly as many times as it occurs, or dropped entirely. */
  lemma {:induction false} FilterCount(keep: string -> bool, s: seq<string>, x: string)
    ensures multiset(Filter(keep, s))[x] == if keep(x) then multiset(s)[x] else 0
    decreases |s|
  {
    if |s| > 0 {
      FilterCount(keep, s[1..], x);
      assert s == [s[0]] + s[1..];
    }
  }

  /** An element that passes the test is selected. */
  lemma FilterSelects(keep: string -> bool, s: seq<string>, k: nat)
    requires k < |s| && keep(s[k])
    ensures s[k] in Filter(keep, s)
  {
    FilterCount(keep, s, s[k]);
    assert s[k] in multiset(s);
  }

  /** When every element is kept, selection is the identity. */
  lemma {:induction false} FilterKeepsAll(keep: string -> bool, s: seq<string>)
    requires forall k :: 0 <= k < |s| ==> keep(s[k])
    ensures Filter(keep, s) == s
    decreases |s|
  {
    if |s| > 0 {
      FilterKeepsAll(keep, s[1..]);
      assert [s[0]] + s[1..] == s;
    }
  }

  /** When no element is kept, selection is empty. */
  lemma {:induction false} FilterKeepsNone(keep: string -> bool, s: seq<string>)
    requires forall k :: 0 <= k < |s| ==> !keep(s[k])
    ensures Filter(keep, s) == []
    decreases |s|
  {
    if |s| > 0 {
      FilterKeepsNone(keep, s[1..]);
    }
  }

  /** Selecting from a block of kept elements followed by a block of dropped ones gives the first block. */
  lemma FilterFrontBlock(keep: string -> bool, a: seq<string>, b: seq<string>)
    requires forall k :: 0 <= k < |a| ==> keep(a[k])
    requires forall k :: 0 <= k < |b| ==> !keep(b[k])
    ensures Filter(keep, a + b) == a
  {
    FilterConcat(keep, a, b);
    FilterKeepsAll(keep, a);
    FilterKeepsNone(keep, b);
    assert a + [] == a;
  }

  /** Selecting from a block of dropped elements followed by a block of kept ones gives the second block. */
  lemma FilterBackBlock(keep: string -> bool, a: seq<string>, b: seq<string>)
    requires forall k :: 0 <= k < |a| ==> !keep(a[k])
    requires forall k :: 0 <= k < |b| ==> keep(b[k])
    ensures Filter(keep, a + b) == b
  {
    FilterConcat(keep, a, b);
    FilterKeepsNone(keep, a);
    FilterKeepsAll(keep, b);
    assert [] + b == b;
  }

  /** Selecting by a stronger test after a weaker one is selecting by the stronger one alone. */
  lemma {:induction false} FilterOfFilter(strong: string -> bool, weak: string -> bool, s: seq<string>)
    requires forall k :: 0 <= k < |s| && strong(s[k]) ==> weak(s[k])
    ensures Filter(strong, Filter(weak, s)) == Filter(strong, s)
    decreases |s|
  {
    if |s| > 0 {
      FilterOfFilter(strong, weak, s[1..]);
      FilterConcat(strong, if weak(s[0]) then [s[0]] else [], Filter(weak, s[1..]));
    }
  }
}
